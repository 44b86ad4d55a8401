/** The output of a login command that is kept for its error message. */
module BoundedOutput {
  import opened Sequences
  import opened UnitText

  const MAX_CAPTURED_CHARS := 8000

  function Total(chunks: seq<Units>): nat {
    if chunks == [] then 0 else |chunks[0]| + Total(chunks[1..])
  }

  function NonEmpty(texts: seq<Units>): seq<Units> {
    if texts == [] then []
    else NonEmpty(texts[..|texts| - 1]) + if texts[|texts| - 1] == [] then [] else [texts[|texts| - 1]]
  }

  /** The chunks from number `k` on fit, and no more than those do. */
  ghost predicate FitsFrom(all: seq<Units>, k: nat) {
    && k <= |all| && Total(all[k..]) <= 8000
    && forall i: nat | i < k :: Total(all[i..]) > 8000
  }

  /** The longest suffix of the chunks that fits. */
  ghost predicate IsLongestFit(kept: seq<Units>, all: seq<Units>) {
    exists k: nat :: k <= |all| && FitsFrom(all, k) && kept == all[k..]
  }

  lemma {:induction false} TotalConcat(a: seq<Units>, b: seq<Units>)
    ensures Total(a + b) == Total(a) + Total(b)
  {
    if a == [] {
      assert a + b == b;
    } else {
      TailOfConcat(a, b);
      TotalConcat(a[1..], b);
    }
  }

  lemma LongerIsMore(all: seq<Units>, i: nat, j: nat)
    requires i <= j <= |all|
    ensures Total(all[j..]) <= Total(all[i..])
  {
    assert all[i..] == all[i..j] + all[j..];
    TotalConcat(all[i..j], all[j..]);
  }

  /** There is always one longest suffix that fits. */
  lemma {:induction false} LongestFitIsUnique(all: seq<Units>) returns (kept: seq<Units>)
    ensures forall other :: IsLongestFit(other, all) <==> other == kept
  {
    var k := FirstFit(all, 0);
    kept := all[k..];
    forall other | IsLongestFit(other, all)
      ensures other == kept
    {
      var j: nat :| FitsFrom(all, j) && other == all[j..];
      OneFit(all, j, k);
    }
  }

  lemma OneFit(all: seq<Units>, j: nat, k: nat)
    requires FitsFrom(all, j) && FitsFrom(all, k)
    ensures j == k
  {}

  lemma NonEmptyNext(texts: seq<Units>, text: Units)
    ensures NonEmpty(texts + [text]) == if text == [] then NonEmpty(texts) else NonEmpty(texts) + [text]
  {
    assert (texts + [text])[..|texts|] == texts;
    assert NonEmpty(texts) + [] == NonEmpty(texts);
  }

  lemma TotalTail(chunks: seq<Units>)
    ensures chunks != [] ==> Total(chunks) == |chunks[0]| + Total(chunks[1..])
    ensures chunks == [] ==> Total(chunks) == 0
  {}

  lemma {:induction false} FirstFit(all: seq<Units>, from: nat) returns (k: nat)
    requires from <= |all| && forall i: nat | i < from :: Total(all[i..]) > MAX_CAPTURED_CHARS
    ensures FitsFrom(all, k)
    decreases |all| - from
  {
    if Total(all[from..]) <= MAX_CAPTURED_CHARS {
      k := from;
    } else {
      assert all[|all|..] == [];
      k := FirstFit(all, from + 1);
    }
  }

  lemma FitsAfterDropping(all: seq<Units>, text: Units, k: nat, d: nat)
    requires FitsFrom(all, k) && k <= d <= |all| + 1
    requires Total((all + [text])[d..]) <= MAX_CAPTURED_CHARS
    requires d > k ==> Total((all + [text])[d - 1..]) > MAX_CAPTURED_CHARS
    ensures FitsFrom(all + [text], d)
  {
    hide Total;
    var more := all + [text];
    forall i: nat | i < d
      ensures Total(more[i..]) > MAX_CAPTURED_CHARS
    {
      if i >= k {
        LongerIsMore(more, i, d - 1);
      } else {
        assert more[i..] == all[i..] + [text];
        TotalConcat(all[i..], [text]);
      }
    }
  }

  /** One captured stream. */
  class Capture {
    var chunks: seq<Units>
    var len: nat
    /** Everything that has come, empty texts too. */
    ghost var stream: seq<Units>

    ghost predicate Valid()
      reads this
    {
      len == Total(chunks) && IsLongestFit(chunks, NonEmpty(stream))
    }

    constructor ()
      ensures Valid() && stream == []
    {
      chunks, len, stream := [], 0, [];
      new;
      assert FitsFrom([], 0);
    }

    /** `appendBoundedChunk` with the assignment of its result. */
    method Append(text: Units)
      requires Valid()
      modifies this
      ensures Valid() && stream == old(stream) + [text]
    {
      hide NonEmpty, Total, FitsFrom;
      NonEmptyNext(stream, text);
      stream := stream + [text];
      if text == [] {
        return;
      }
      ghost var all := NonEmpty(old(stream));
      ghost var k: nat :| k <= |all| && FitsFrom(all, k) && chunks == all[k..];
      ghost var more, d := all + [text], k;
      TotalConcat(chunks, [text]);
      TotalTail([text]);
      TotalTail([]);
      assert [text][1..] == [] && more[k..] == chunks + [text];
      chunks := chunks + [text];
      var total := len + |text|;
      while total > MAX_CAPTURED_CHARS && |chunks| > 0
        invariant stream == old(stream) + [text]
        invariant k <= d <= |more| && chunks == more[d..] && total == Total(chunks)
        invariant d > k ==> Total(more[d - 1..]) > MAX_CAPTURED_CHARS
        decreases |chunks|
      {
        assert chunks[1..] == more[d + 1..];
        TotalTail(chunks);
        total := total - |chunks[0]|;
        chunks := chunks[1..];
        d := d + 1;
      }
      TotalTail(chunks);
      len := total;
      FitsAfterDropping(all, text, k, d);
      assert IsLongestFit(chunks, more);
    }
  }
}
