/**
 * The splice loop shared by every rewriter: a StringBuilder that receives the
 * input verbatim from a forward-only cursor up to each cut, the text that
 * replaces the cut, and finally the tail after the last cut.
 */
module Splice {
  import opened Strings

  /** Replace `content[from..to]` by `insert`. */
  datatype Edit = Edit(from: nat, to: nat, insert: string)

  /**
   * The edits lie in order inside `[index, n]`: none starts before the cursor
   * or before the previous one ends.
   */
  predicate Fits(edits: seq<Edit>, index: nat, n: nat)
    decreases |edits|
  {
    if edits == [] then index <= n
    else index <= edits[0].from <= edits[0].to <= n && Fits(edits[1..], edits[0].to, n)
  }

  /** Number of input characters the edits cut out. */
  function Removed(edits: seq<Edit>): int
  {
    if edits == [] then 0 else edits[0].to - edits[0].from + Removed(edits[1..])
  }

  /** Number of characters the edits put in. */
  function Inserted(edits: seq<Edit>): nat
  {
    if edits == [] then 0 else |edits[0].insert| + Inserted(edits[1..])
  }

  /**
   * The output of the splice loop started with its cursor at `index`: the
   * gap before each edit verbatim, then the edit's text, and the tail last.
   */
  function Apply(content: string, edits: seq<Edit>, index: nat): (r: string)
    requires Fits(edits, index, |content|)
    decreases |edits|
  {
    if edits == [] then content[index..]
    else content[index..edits[0].from] + (edits[0].insert + Apply(content, edits[1..], edits[0].to))
  }

  /** The output is the input after the cursor, less what is cut, plus what is put in. */
  lemma {:induction false} ApplyLength(content: string, edits: seq<Edit>, index: nat)
    requires Fits(edits, index, |content|)
    ensures |Apply(content, edits, index)| == |content| - index - Removed(edits) + Inserted(edits)
    decreases |edits|
  {
    if edits != [] {
      ApplyLength(content, edits[1..], edits[0].to);
    }
  }

  /** A cursor further back still fits. */
  lemma FitsEarlier(edits: seq<Edit>, a: nat, b: nat, n: nat)
    requires a <= b && Fits(edits, b, n)
    ensures Fits(edits, a, n)
  {
  }

  /**
   * Starting the loop earlier only adds the text between the two cursors in
   * front: copying is verbatim and in order.
   */
  lemma {:induction false} ApplyEarlier(content: string, edits: seq<Edit>, a: nat, b: nat)
    requires a <= b && Fits(edits, b, |content|)
    ensures Fits(edits, a, |content|)
    ensures Apply(content, edits, a) == content[a..b] + Apply(content, edits, b)
  {
    FitsEarlier(edits, a, b, |content|);
    var to := if edits == [] then |content| else edits[0].from;
    var tail := if edits == [] then [] else edits[0].insert + Apply(content, edits[1..], edits[0].to);
    assert Apply(content, edits, a) == content[a..to] + tail;
    assert Apply(content, edits, b) == content[b..to] + tail;
    SliceSplit(content, a, b, to);
    Associative3(content[a..b], content[b..to], tail);
  }

  /** The same edits, each putting back exactly what it cut. */
  function Restore(content: string, edits: seq<Edit>, index: nat): (r: seq<Edit>)
    requires Fits(edits, index, |content|)
    decreases |edits|
    ensures Fits(r, index, |content|)
  {
    if edits == [] then []
    else
      var e := edits[0];
      [Edit(e.from, e.to, content[e.from..e.to])] + Restore(content, edits[1..], e.to)
  }

  /**
   * The copied gaps and the cut spans partition the input: putting every cut
   * back reproduces it, with no gap and no overlap.
   */
  lemma {:induction false} ApplyRestore(content: string, edits: seq<Edit>, index: nat)
    requires Fits(edits, index, |content|)
    ensures Apply(content, Restore(content, edits, index), index) == content[index..]
    decreases |edits|
  {
    if edits != [] {
      var e := edits[0];
      var rest := Restore(content, edits[1..], e.to);
      var r := Restore(content, edits, index);
      assert r == [Edit(e.from, e.to, content[e.from..e.to])] + rest;
      assert r[0] == Edit(e.from, e.to, content[e.from..e.to]) && r[1..] == rest;
      assert Apply(content, r, index) == content[index..e.from] + (content[e.from..e.to] + Apply(content, rest, e.to));
      ApplyRestore(content, edits[1..], e.to);
      SliceSplit(content, e.from, e.to, |content|);
      SliceSplit(content, index, e.from, |content|);
      assert content[e.from..e.to] + Apply(content, rest, e.to) == content[e.from..];
    } else {
      assert Restore(content, edits, index) == [];
    }
  }

  /** Edits that only cut. */
  predicate Deletions(edits: seq<Edit>)
  {
    forall k :: 0 <= k < |edits| ==> edits[k].insert == []
  }

  /**
   * When the edits only cut, the output is the input less the cut characters,
   * so never longer than the part of the input after the cursor.
   */
  lemma {:induction false} DeletionsShorten(content: string, edits: seq<Edit>, index: nat)
    requires Fits(edits, index, |content|) && Deletions(edits)
    ensures |Apply(content, edits, index)| == |content| - index - Removed(edits)
    ensures 0 <= Removed(edits) <= |content| - index
    decreases |edits|
  {
    if edits != [] {
      assert edits[0].insert == [];
      assert Deletions(edits[1..]) by {
        forall k | 0 <= k < |edits[1..]| ensures edits[1..][k].insert == [] {
          assert edits[1..][k] == edits[k + 1];
        }
      }
      DeletionsShorten(content, edits[1..], edits[0].to);
    }
    ApplyLength(content, edits, index);
  }

  /** Edits that put back exactly the text they cover. */
  predicate Verbatim(content: string, edits: seq<Edit>)
  {
    forall k :: 0 <= k < |edits| ==>
      edits[k].from <= edits[k].to <= |content| && edits[k].insert == content[edits[k].from..edits[k].to]
  }

  lemma {:induction false} VerbatimCons(content: string, edits: seq<Edit>)
    requires edits != []
    ensures Verbatim(content, edits)
        <==> && edits[0].from <= edits[0].to <= |content|
             && edits[0].insert == content[edits[0].from..edits[0].to]
             && Verbatim(content, edits[1..])
  {
    if Verbatim(content, edits[1..]) {
      forall k | 0 < k < |edits| ensures edits[k] == edits[1..][k - 1] { }
    }
  }

  /** Edits that change nothing leave the input after the cursor as it is. */
  lemma {:induction false} ApplyVerbatim(content: string, edits: seq<Edit>, index: nat)
    requires Fits(edits, index, |content|) && Verbatim(content, edits)
    ensures Apply(content, edits, index) == content[index..]
    decreases |edits|
  {
    if edits != [] {
      var e := edits[0];
      VerbatimCons(content, edits);
      assert e.insert == content[e.from..e.to];
      ApplyVerbatim(content, edits[1..], e.to);
      var tail := Apply(content, edits[1..], e.to);
      assert tail == content[e.to..];
      assert Apply(content, edits, index) == content[index..e.from] + (content[e.from..e.to] + tail);
      SliceSplit(content, e.from, e.to, |content|);
      SliceSplit(content, index, e.from, |content|);
    }
  }
}
