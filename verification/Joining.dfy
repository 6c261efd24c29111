// Pieces of a stream put back together.
module Joining {
  function Concat<T>(chunks: seq<seq<T>>): (s: seq<T>) {
    if chunks == [] then [] else Concat(chunks[..|chunks| - 1]) + chunks[|chunks| - 1]
  }

  lemma {:induction false} ConcatPrefix<T>(chunks: seq<seq<T>>, n: nat)
    requires n <= |chunks|
    ensures |Concat(chunks[..n])| <= |Concat(chunks)|
    ensures Concat(chunks)[..|Concat(chunks[..n])|] == Concat(chunks[..n])
    decreases |chunks|
  {
    if n == |chunks| {
      assert chunks[..n] == chunks;
    } else {
      var k := |chunks| - 1;
      assert chunks[..k][..n] == chunks[..n];
      ConcatPrefix(chunks[..k], n);
    }
  }

  lemma ConcatAppend<T>(a: seq<seq<T>>, b: seq<T>)
    ensures Concat(a + [b]) == Concat(a) + b
  {
    assert (a + [b])[..|a|] == a;
  }

  // One more piece; what is joined so far stays a prefix of the whole.
  lemma ConcatNext<T>(chunks: seq<seq<T>>, i: nat)
    requires i < |chunks|
    ensures Concat(chunks[..i + 1]) == Concat(chunks[..i]) + chunks[i]
    ensures Concat(chunks[..i + 1]) <= Concat(chunks)
  {
    assert chunks[..i + 1][..i] == chunks[..i];
    ConcatPrefix(chunks, i + 1);
  }

  lemma ConcatEnds<T>(chunks: seq<seq<T>>)
    ensures Concat(chunks[..0]) == [] && Concat(chunks[..|chunks|]) == Concat(chunks)
  {
    assert chunks[..0] == [] && chunks[..|chunks|] == chunks;
  }

  lemma ConcatOne<T>(piece: seq<T>)
    ensures Concat([piece]) == piece && Concat<T>([]) == []
  {
    assert [piece][..0] == [];
  }

  lemma {:induction false} ConcatFirst<T>(chunks: seq<seq<T>>)
    requires chunks != []
    ensures Concat(chunks) == chunks[0] + Concat(chunks[1..])
  {
    hide Concat;
    var k := |chunks| - 1;
    var (init, last) := (chunks[..k], chunks[k]);
    if k == 0 {
      ConcatOne(last);
      assert chunks == [last] && chunks[1..] == [];
    } else {
      ConcatFirst(init);
      ConcatAppend(init, last);
      ConcatAppend(init[1..], last);
      assert chunks == init + [last] && chunks[1..] == init[1..] + [last];
    }
  }
}
