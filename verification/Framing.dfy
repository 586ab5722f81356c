/** Concatenated items: what a decoder must satisfy to split a byte stream, and the sequence parse built on it. */
module Framing {
  import opened Base

  datatype DecodeError = Truncated | NestingLimit | BadUtf8 | ReservedSimple | InvalidMajor | Unreadable

  /** One decoding step: a value and the bytes after it, or a classified failure. */
  datatype Parsed<+T> = Got(value: T, rest: Bytes) | Failed(error: DecodeError)

  type Parser<!T> = Bytes -> Parsed<T>

  /** What is left over is a suffix of the input. */
  ghost predicate Suffix<T>(p: Parser<T>, bs: Bytes) {
    p(bs).Got? ==> |p(bs).rest| <= |bs| && p(bs).rest == bs[|bs| - |p(bs).rest|..]
  }

  /** What follows a complete item, or a malformed one, does not change the verdict on it. */
  ghost predicate Local<T>(p: Parser<T>, bs: Bytes, more: Bytes)
    requires Suffix(p, bs)
  {
    match p(bs)
    case Got(v, rest) => p(bs[..|bs| - |rest|] + more) == Got(v, more)
    case Failed(error) => error != Truncated ==> p(bs + more) == Failed(error)
  }

  /** Parsing depends on the parsed bytes only. */
  ghost predicate Delimited<T(!new)>(p: Parser<T>) {
    && (forall bs :: Suffix(p, bs))
    && (forall bs, more :: Local(p, bs, more))
  }

  ghost predicate Progress<T>(p: Parser<T>, bs: Bytes) {
    p(bs).Got? ==> |p(bs).rest| < |bs|
  }

  /** The law of a self-delimiting item format: an item takes at least one byte, and is read from its own bytes. */
  ghost predicate SelfDelimiting<T(!new)>(p: Parser<T>) {
    && Delimited(p)
    && p([]) == Failed(Truncated)
    && (forall bs :: Progress(p, bs))
  }

  // ---- Building parsers ----

  function Return<T>(v: T): Parser<T> {
    (bs: Bytes) => Got(v, bs)
  }

  function Fail<T>(error: DecodeError): Parser<T> {
    (bs: Bytes) => Failed(error)
  }

  /** The next `n` bytes. */
  function Take(n: nat): Parser<Bytes> {
    (bs: Bytes) => if |bs| < n then Failed(Truncated) else Got(bs[..n], bs[n..])
  }

  /** `p`, then the parser its value selects. */
  function Bind<T, U>(p: Parser<T>, f: T -> Parser<U>): Parser<U> {
    (bs: Bytes) =>
      match p(bs)
      case Got(v, rest) => f(v)(rest)
      case Failed(error) => Failed(error)
  }

  /** `n` items in a row. */
  function Repeat<T>(p: Parser<T>, n: nat): Parser<seq<T>> {
    if n == 0 then Return([]) else
      var tail := Repeat(p, n - 1);
      Bind(p, (v: T) => Bind(tail, (vs: seq<T>) => Return([v] + vs)))
  }

  lemma ReturnDelimited<T(!new)>(v: T)
    ensures Delimited(Return(v))
  {
    forall bs: Bytes, more: Bytes
      ensures Local(Return(v), bs, more)
    {
      assert bs[..0] + more == more;
    }
  }

  lemma FailDelimited<T(!new)>(error: DecodeError)
    ensures Delimited(Fail<T>(error))
  {
  }

  lemma TakeDelimited(n: nat)
    ensures Delimited(Take(n))
  {
    forall bs: Bytes, more: Bytes
      ensures Local(Take(n), bs, more)
    {
      if n <= |bs| {
        assert (bs[..n] + more)[..n] == bs[..n] && (bs[..n] + more)[n..] == more;
      }
    }
  }

  lemma BindDelimited<T(!new), U(!new)>(p: Parser<T>, f: T -> Parser<U>)
    requires Delimited(p)
    requires forall v :: Delimited(f(v))
    ensures Delimited(Bind(p, f))
  {
    forall bs: Bytes
      ensures Suffix(Bind(p, f), bs)
    {
      assert Suffix(p, bs);
      if p(bs).Got? {
        assert Delimited(f(p(bs).value)) && Suffix(f(p(bs).value), p(bs).rest);
      }
    }
    forall bs: Bytes, more: Bytes
      ensures Local(Bind(p, f), bs, more)
    {
      BindLocal(p, f, bs, more);
    }
  }

  lemma BindLocal<T(!new), U(!new)>(p: Parser<T>, f: T -> Parser<U>, bs: Bytes, more: Bytes)
    requires Delimited(p)
    requires forall v :: Delimited(f(v))
    requires Suffix(Bind(p, f), bs)
    ensures Local(Bind(p, f), bs, more)
  {
    assert Suffix(p, bs) && Local(p, bs, more);
    if p(bs).Got? {
      var v, rest := p(bs).value, p(bs).rest;
      var q := f(v);
      assert Delimited(q) && Suffix(q, rest) && Local(q, rest, more);
      if q(rest).Got? {
        var end := q(rest).rest;
        assert Local(p, bs, rest[..|rest| - |end|] + more);
        assert bs[..|bs| - |end|] + more == bs[..|bs| - |rest|] + (rest[..|rest| - |end|] + more);
      } else {
        assert Local(p, bs, rest + more);
        assert bs + more == bs[..|bs| - |rest|] + (rest + more);
      }
    }
  }

  lemma {:induction false} RepeatDelimited<T(!new)>(p: Parser<T>, n: nat)
    requires Delimited(p)
    ensures Delimited(Repeat(p, n))
  {
    if n == 0 {
      ReturnDelimited<seq<T>>([]);
    } else {
      var tail := Repeat(p, n - 1);
      RepeatDelimited(p, n - 1);
      forall v: T
        ensures Delimited(Bind(tail, (vs: seq<T>) => Return([v] + vs)))
      {
        forall vs: seq<T>
          ensures Delimited(Return([v] + vs))
        {
          ReturnDelimited([v] + vs);
        }
        BindDelimited(tail, (vs: seq<T>) => Return([v] + vs));
      }
      BindDelimited(p, (v: T) => Bind(tail, (vs: seq<T>) => Return([v] + vs)));
    }
  }

  /** More input keeps a complete item. */
  lemma Extend<T(!new)>(dec: Parser<T>, bs: Bytes, more: Bytes)
    requires SelfDelimiting(dec)
    ensures dec(bs).Got? ==> dec(bs + more) == Got(dec(bs).value, dec(bs).rest + more)
    ensures dec(bs).Failed? && dec(bs).error != Truncated ==> dec(bs + more) == dec(bs)
  {
    assert Suffix(dec, bs) && Local(dec, bs, more);
    if dec(bs).Got? {
      var rest := dec(bs).rest;
      assert Local(dec, bs, rest + more);
      assert bs[..|bs| - |rest|] + (rest + more) == bs + more;
    }
  }

  /** Every proper prefix of an item's own bytes is a truncated item. */
  lemma CutItem<T(!new)>(dec: Parser<T>, bs: Bytes, k: nat)
    requires SelfDelimiting(dec)
    requires dec(bs).Got? && k < |bs| - |dec(bs).rest|
    ensures dec(bs[..k]) == Failed(Truncated)
  {
    Extend(dec, bs[..k], bs[k..]);
    assert bs[..k] + bs[k..] == bs;
    assert Progress(dec, bs[..k]);
  }

  // ---- Parsing a whole sequence ----

  /** The failure that ended a sequence, with the index of the item it hit. */
  datatype SeqError = SeqError(index: nat, error: DecodeError)

  datatype SeqParse<+T> = SeqParse(items: seq<T>, error: Option<SeqError>)

  /** The items of `bs`, the first of them numbered `index`. */
  ghost function Items<T(!new)>(dec: Parser<T>, bs: Bytes, index: nat): SeqParse<T>
    requires SelfDelimiting(dec)
    decreases |bs|
  {
    if bs == [] then SeqParse([], None) else
      assert Progress(dec, bs);
      match dec(bs)
      case Got(v, rest) =>
        var tail := Items(dec, rest, index + 1);
        SeqParse([v] + tail.items, tail.error)
      case Failed(error) => SeqParse([], Some(SeqError(index, error)))
  }

  /** `parse_seq` / `parse_stream`: the loop over a buffered sequence. Its no-progress guard never fires. */
  method ParseSeq<T(!new)>(dec: Parser<T>, bytes: Bytes) returns (parse: SeqParse<T>)
    requires SelfDelimiting(dec)
    ensures parse == Items(dec, bytes, 0)
  {
    var cur := bytes;
    var items: seq<T> := [];
    while cur != []
      invariant Items(dec, bytes, 0).items == items + Items(dec, cur, |items|).items
      invariant Items(dec, bytes, 0).error == Items(dec, cur, |items|).error
      decreases |cur|
    {
      assert Progress(dec, cur);
      match dec(cur)
      case Got(value, rest) =>
        assert items + Items(dec, cur, |items|).items == (items + [value]) + Items(dec, rest, |items| + 1).items;
        items, cur := items + [value], rest;
      case Failed(error) =>
        return SeqParse(items, Some(SeqError(|items|, error)));
    }
    return SeqParse(items, None);
  }

  // ---- Encoded sequences and their cuts ----

  function Concat(chunks: seq<Bytes>): Bytes {
    if |chunks| == 0 then [] else chunks[0] + Concat(chunks[1..])
  }

  lemma {:induction false} ConcatAppend(a: seq<Bytes>, b: seq<Bytes>)
    ensures Concat(a + b) == Concat(a) + Concat(b)
  {
    if |a| > 0 {
      assert (a + b)[1..] == a[1..] + b;
      ConcatAppend(a[1..], b);
    } else {
      assert a + b == b;
    }
  }

  /** `chunks[i]` is exactly one item, with value `vs[i]`. */
  ghost predicate EncodesEach<T(!new)>(dec: Parser<T>, vs: seq<T>, chunks: seq<Bytes>) {
    |vs| == |chunks| && forall i | 0 <= i < |vs| :: dec(chunks[i]) == Got(vs[i], [])
  }

  /** How many whole chunks lie within the first `k` bytes. */
  function WholeChunks(chunks: seq<Bytes>, k: nat): (n: nat)
    ensures n <= |chunks|
  {
    if |chunks| == 0 || k < |chunks[0]| then 0 else 1 + WholeChunks(chunks[1..], k - |chunks[0]|)
  }

  /** `WholeChunks` is the largest number of chunks that fit in `k` bytes. */
  lemma {:induction false} WholeChunksIsLargest(chunks: seq<Bytes>, k: nat)
    ensures var n := WholeChunks(chunks, k);
            && |Concat(chunks[..n])| <= k
            && (n < |chunks| ==> k < |Concat(chunks[..n + 1])|)
  {
    var n := WholeChunks(chunks, k);
    if n > 0 {
      WholeChunksIsLargest(chunks[1..], k - |chunks[0]|);
      assert chunks[..n][1..] == chunks[1..][..n - 1];
      if n < |chunks| {
        assert chunks[..n + 1][1..] == chunks[1..][..n];
      }
    } else if |chunks| > 0 {
      assert chunks[..1][1..] == [];
      assert Concat(chunks[..1]) == chunks[0] + Concat([]);
    }
  }

  /** Of the first `reach` chunks likewise. */
  lemma WholeFront(chunks: seq<Bytes>, reach: nat, k: nat)
    requires reach <= |chunks|
    ensures var n := WholeChunks(chunks[..reach], k);
            && |Concat(chunks[..n])| <= k
            && (n < reach ==> k < |Concat(chunks[..n + 1])|)
  {
    hide Concat, WholeChunks;
    var n := WholeChunks(chunks[..reach], k);
    WholeChunksIsLargest(chunks[..reach], k);
    assert chunks[..reach][..n] == chunks[..n];
    assert n < reach ==> chunks[..reach][..n + 1] == chunks[..n + 1];
  }

  /** RFC 8742 section 2: a sequence cut after `k` bytes yields exactly the items before the cut, and an error exactly
      when the cut is not an item boundary. The error is a truncation, numbered after the items returned. */
  lemma {:induction false} CutSequence<T(!new)>(
    dec: Parser<T>, vs: seq<T>, chunks: seq<Bytes>, k: nat, index: nat)
    requires SelfDelimiting(dec)
    requires EncodesEach(dec, vs, chunks)
    requires k <= |Concat(chunks)|
    ensures var n := WholeChunks(chunks, k);
            Items(dec, Concat(chunks)[..k], index)
            == SeqParse(vs[..n], if |Concat(chunks[..n])| == k then None else Some(SeqError(index + n, Truncated)))
    decreases |chunks|
  {
    var n := WholeChunks(chunks, k);
    var whole := Concat(chunks);
    if |chunks| == 0 || k == 0 {
      assert whole[..k] == [];
      if |chunks| > 0 {
        assert Progress(dec, chunks[0]);
      }
    } else if k < |chunks[0]| {
      assert whole[..k] == chunks[0][..k];
      CutItem(dec, chunks[0], k);
    } else {
      var rest := Concat(chunks[1..])[..k - |chunks[0]|];
      assert whole[..k] == chunks[0] + rest;
      Extend(dec, chunks[0], rest);
      assert [] + rest == rest;
      assert Progress(dec, chunks[0]);
      CutSequence(dec, vs[1..], chunks[1..], k - |chunks[0]|, index + 1);
      assert [vs[0]] + vs[1..][..n - 1] == vs[..n];
      assert chunks[..n][1..] == chunks[1..][..n - 1];
    }
  }

  /** A whole sequence yields all its values and no error. */
  lemma WholeSequence<T(!new)>(dec: Parser<T>, vs: seq<T>, chunks: seq<Bytes>, index: nat)
    requires SelfDelimiting(dec)
    requires EncodesEach(dec, vs, chunks)
    ensures Items(dec, Concat(chunks), index) == SeqParse(vs, None)
  {
    var k := |Concat(chunks)|;
    CutSequence(dec, vs, chunks, k, index);
    WholeChunksIsLargest(chunks, k);
    var n := WholeChunks(chunks, k);
    assert Concat(chunks)[..k] == Concat(chunks);
    if n < |chunks| {
      assert chunks[..n + 1] + chunks[n + 1..] == chunks;
      ConcatAppend(chunks[..n + 1], chunks[n + 1..]);
    } else {
      assert vs[..n] == vs && chunks[..n] == chunks;
    }
  }

  lemma ConcatSplit(chunks: seq<Bytes>, n: nat)
    requires n <= |chunks|
    ensures Concat(chunks) == Concat(chunks[..n]) + Concat(chunks[n..])
  {
    assert chunks == chunks[..n] + chunks[n..];
    ConcatAppend(chunks[..n], chunks[n..]);
  }

  /** A malformed item stays malformed when it is cut, or when more follows. */
  lemma CutMalformed<T(!new)>(dec: Parser<T>, bad: Bytes, more: Bytes, k: nat)
    requires SelfDelimiting(dec) && dec(bad).Failed? && dec(bad).error != Truncated
    requires k <= |bad + more|
    ensures dec((bad + more)[..k]).Failed?
  {
    if k <= |bad| {
      assert (bad + more)[..k] == bad[..k] && bad[..k] + bad[k..] == bad;
      Extend(dec, bad[..k], bad[k..]);
    } else {
      assert (bad + more)[..k] == bad + more[..k - |bad|];
      Extend(dec, bad, more[..k - |bad|]);
    }
  }

  /** A sequence whose `n`-th item is malformed, cut after `k` bytes: exactly the items before both, and no error
      exactly when the cut is a boundary of these. */
  lemma StoppedSequence<T(!new)>(dec: Parser<T>, vs: seq<T>, chunks: seq<Bytes>, n: nat, k: nat)
    requires SelfDelimiting(dec)
    requires n <= |chunks| && EncodesEach(dec, vs, chunks[..n])
    requires n < |chunks| ==> dec(chunks[n]).Failed? && dec(chunks[n]).error != Truncated
    requires k <= |Concat(chunks)|
    ensures var c := WholeChunks(chunks[..n], k);
            var parse := Items(dec, Concat(chunks)[..k], 0);
            parse.items == vs[..c] && (parse.error.None? <==> |Concat(chunks[..c])| == k)
  {
    hide SelfDelimiting, WholeChunks, Concat;
    var good, whole := Concat(chunks[..n]), Concat(chunks);
    var c := WholeChunks(chunks[..n], k);
    assert chunks[..n][..c] == chunks[..c];
    ConcatSplit(chunks, n);
    if k <= |good| {
      assert whole[..k] == good[..k];
      CutSequence(dec, vs, chunks[..n], k, 0);
    } else {
      AllChunks(chunks[..n], k);
      MalformedTail(dec, chunks, n, k);
      var tail := Concat(chunks[n..])[..k - |good|];
      assert whole[..k] == good + tail;
      WholeSequence(dec, vs, chunks[..n], 0);
      SequencesAppend(dec, good, tail, 0);
      assert vs[..c] == vs;
    }
  }

  lemma AllChunks(chunks: seq<Bytes>, k: nat)
    requires k >= |Concat(chunks)|
    ensures WholeChunks(chunks, k) == |chunks|
  {
    hide Concat, WholeChunks;
    WholeChunksIsLargest(chunks, k);
    var n := WholeChunks(chunks, k);
    if n < |chunks| {
      ConcatSplit(chunks, n + 1);
    }
  }

  lemma MalformedTail<T(!new)>(dec: Parser<T>, chunks: seq<Bytes>, n: nat, k: nat)
    requires SelfDelimiting(dec)
    requires n < |chunks| ==> dec(chunks[n]).Failed? && dec(chunks[n]).error != Truncated
    requires n <= |chunks| && |Concat(chunks[..n])| < k <= |Concat(chunks)|
    ensures k - |Concat(chunks[..n])| <= |Concat(chunks[n..])|
    ensures var tail := Concat(chunks[n..])[..k - |Concat(chunks[..n])|];
            var parse := Items(dec, tail, n);
            parse.items == [] && parse.error.Some?
  {
    hide SelfDelimiting;
    assert chunks[..|chunks|] == chunks;
    assert n < |chunks|;
    ConcatSplit(chunks, n);
    assert chunks[n..][1..] == chunks[n + 1..];
    CutMalformed(dec, chunks[n], Concat(chunks[n + 1..]), k - |Concat(chunks[..n])|);
  }

  /** Sequences append: after a complete sequence, parsing goes on with what follows it. */
  lemma {:induction false} SequencesAppend<T(!new)>(dec: Parser<T>, a: Bytes, b: Bytes, index: nat)
    requires SelfDelimiting(dec) && Items(dec, a, index).error == None
    ensures var first := Items(dec, a, index);
            var second := Items(dec, b, index + |first.items|);
            Items(dec, a + b, index) == SeqParse(first.items + second.items, second.error)
    decreases |a|
  {
    if a == [] {
      assert a + b == b;
    } else {
      assert Progress(dec, a);
      Extend(dec, a, b);
      var v, rest := dec(a).value, dec(a).rest;
      SequencesAppend(dec, rest, b, index + 1);
      var tail, more := Items(dec, rest, index + 1), Items(dec, b, index + 1 + |Items(dec, rest, index + 1).items|);
      assert [v] + (tail.items + more.items) == ([v] + tail.items) + more.items;
    }
  }
}
