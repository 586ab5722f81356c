/** Readers stacked on each other: ranges of a stored object, a buffer over them, and items over the buffer. */
module Streaming {
  import opened Base
  import opened Framing

  function Min(a: nat, b: nat): nat {
    if a < b then a else b
  }

  /** An object store holding one object. `served(start, end)` is how many bytes it returns for a range request, None
      when the request fails; `sized` tells whether asking for the size alone succeeds. */
  datatype Store = Store(data: Bytes, served: (nat, nat) -> Option<nat>, sized: bool) {

    /** A successful response is a prefix of what exists of the range, and not empty before the end. */
    ghost predicate Valid() {
      forall start: nat, end: nat | start < end && served(start, end).Some? ::
        && start + served(start, end).value <= Min(end, |data|)
        && (start < |data| ==> served(start, end).value > 0)
    }

    /** No request within the object fails. */
    ghost predicate Reliable() {
      sized && forall start: nat, end: nat | start < end && start < |data| :: served(start, end).Some?
    }
  }

  /** Fetches an object in ranges of `chunk` bytes, on demand. */
  class RangeReader {
    const store: Store
    const chunk: nat
    var size: Option<nat>   // unknown until the first response
    var pos: nat            // next offset to fetch
    var buf: Bytes          // the current chunk
    var off: nat            // how much of it is consumed

    ghost predicate Valid()
      reads this
    {
      && store.Valid() && chunk > 0
      && off <= |buf| && pos <= |store.data|
      && (if size.Some? then size.value == |store.data| else pos == 0)
    }

    /** The bytes not yet handed out: the rest of the chunk and what is not fetched. */
    ghost function Remaining(): Bytes
      requires Valid()
      reads this
    {
      buf[off..] + store.data[pos..]
    }

    constructor (store: Store, chunk: nat)
      requires store.Valid() && chunk > 0
      ensures Valid() && this.store == store && Remaining() == store.data
    {
      this.store, this.chunk := store, chunk;
      size, pos, buf, off := None, 0, [], 0;
    }

    /** Request the next range. An empty buffer afterwards means the end of the object. */
    method Fetch() returns (r: Outcome<()>)
      requires Valid() && off == |buf|
      modifies this
      ensures Valid() && Remaining() == old(Remaining())
      ensures r.Ok? ==> off <= |buf| && (off == |buf| ==> Remaining() == [])
      ensures r.Refused? ==> !store.Reliable()
    {
      if size.Some? && pos >= size.value {
        return Ok(());
      }
      var end := if size.Some? then Min(pos + chunk, size.value) else pos + chunk;
      match store.served(pos, end)
      case None =>
        if size.None? && store.sized && |store.data| == 0 {
          size := Some(0);
          return Ok(());
        }
        return Refused;
      case Some(n) =>
        size := Some(|store.data|);
        buf, pos, off := store.data[pos..pos + n], pos + n, 0;
        return Ok(());
    }

    /** Fetch when the current chunk is used up. */
    method Refill() returns (r: Outcome<()>)
      requires Valid()
      modifies this
      ensures Valid() && Remaining() == old(Remaining())
      ensures r.Ok? ==> off <= |buf| && (off == |buf| ==> Remaining() == [])
      ensures r.Refused? ==> !store.Reliable()
    {
      hide Store.Valid, Store.Reliable;
      if off >= |buf| {
        r := Fetch();
      } else {
        r := Ok(());
      }
    }

    /** Take `n` bytes of the current chunk. */
    method TakeBytes(n: nat) returns (part: Bytes)
      requires Valid() && n <= |buf| - off
      modifies this
      ensures Valid() && |part| == n && part + Remaining() == old(Remaining())
    {
      hide Store.Valid, Store.Reliable;
      part := buf[off..off + n];
      SplitFront(buf, off, n, store.data[pos..]);
      off := off + n;
    }

    /** Copy some of the remaining bytes to the front of `out`. Zero bytes mean the end of the object. */
    method Read(out: array<byte>) returns (r: Outcome<nat>)
      requires Valid()
      modifies this, out
      ensures Valid()
      ensures r.Ok? ==> r.value <= out.Length && out[..r.value] + Remaining() == old(Remaining())
      ensures r.Ok? ==> out[r.value..] == old(out[r.value..])
      ensures r == Ok(0) ==> out.Length == 0 || Remaining() == []
      ensures r.Refused? ==> !store.Reliable() && Remaining() == old(Remaining())
    {
      hide Valid, Remaining, Store.Valid, Store.Reliable;
      var refilled := Refill();
      if refilled.Refused? {
        return Refused;
      }
      var n := Min(|buf| - off, out.Length);
      var part := TakeBytes(n);
      assert out[..] == old(out[..]);
      CopyTo(part, out);
      assert n == 0 ==> [] + Remaining() == Remaining();
      r := Ok(n);
    }
  }

  lemma SplitFront(buf: Bytes, off: nat, n: nat, more: Bytes)
    requires off + n <= |buf|
    ensures buf[off..] + more == buf[off..off + n] + (buf[off + n..] + more)
  {
  }

  /** `copy_from_slice` into the front of a buffer. */
  method CopyTo(part: Bytes, out: array<byte>)
    requires |part| <= out.Length
    modifies out
    ensures out[..|part|] == part
    ensures out[|part|..] == old(out[|part|..])
  {
    for i := 0 to |part|
      invariant out[..i] == part[..i]
      invariant out[|part|..] == old(out[|part|..])
    {
      out[i] := part[i];
    }
  }

  datatype Pulled<+T> = Whole(value: T) | Bad(error: DecodeError) | IoError

  /** A buffered reader: `fill_buf` shows what is buffered, reading on only when that is used up. */
  class BufReader {
    const inner: RangeReader
    const buf: array<byte>
    var pos: nat
    var filled: nat

    ghost predicate Valid()
      reads this, inner, buf
    {
      inner.Valid() && buf.Length > 0 && pos <= filled <= buf.Length
    }

    ghost function Remaining(): Bytes
      requires Valid()
      reads this, inner, buf
    {
      buf[pos..filled] + inner.Remaining()
    }

    constructor (store: Store, chunk: nat, capacity: nat)
      requires store.Valid() && chunk > 0 && capacity > 0
      ensures Valid() && fresh(inner) && fresh(buf) && inner.store == store && Remaining() == store.data
    {
      inner := new RangeReader(store, chunk);
      buf := new byte[capacity];
      pos, filled := 0, 0;
      new;
      assert buf[0..0] == [];
    }

    method FillBuf() returns (r: Outcome<Bytes>)
      requires Valid()
      modifies this, inner, buf
      ensures Valid() && Remaining() == old(Remaining())
      ensures r.Ok? ==> r.value == buf[pos..filled] && (r.value == [] <==> Remaining() == [])
      ensures r.Refused? ==> !inner.store.Reliable()
    {
      hide Store.Valid, Store.Reliable, RangeReader.Remaining;
      if pos >= filled {
        assert Remaining() == inner.Remaining();
        var n := inner.Read(buf);
        pos, filled := 0, 0;
        if n.Refused? {
          return Refused;
        }
        filled := n.value;
        assert buf[pos..filled] == buf[..n.value];
      }
      r := Ok(buf[pos..filled]);
    }

    method Consume(n: nat)
      requires Valid() && n <= filled - pos
      modifies this
      ensures Valid() && Remaining() == old(Remaining())[n..]
      ensures pos == old(pos) + n && filled == old(filled)
    {
      assert buf[pos..filled][n..] == buf[pos + n..filled];
      pos := pos + n;
    }

    /** The next byte, None at the end. */
    method TakeByte() returns (r: Outcome<Option<byte>>)
      requires Valid()
      modifies this, inner, buf
      ensures Valid()
      ensures r.Ok? && r.value.Some? ==> [r.value.value] + Remaining() == old(Remaining())
      ensures r == Ok(None) ==> old(Remaining()) == Remaining() == []
      ensures r.Refused? ==> !inner.store.Reliable()
    {
      hide Store.Valid, Store.Reliable;
      var front := FillBuf();
      if front.Refused? {
        return Refused;
      }
      if front.value == [] {
        return Ok(None);
      }
      var b := buf[pos];
      assert Remaining() == [b] + Remaining()[1..];
      Consume(1);
      return Ok(Some(b));
    }

    /** One call of a library decoder: it takes bytes until its item is complete or malformed, and no more. */
    method Pull<T(!new)>(p: Parser<T>) returns (r: Pulled<T>)
      requires Valid() && SelfDelimiting(p)
      modifies this, inner, buf
      ensures Valid()
      ensures r.Whole? ==> p(old(Remaining())) == Got(r.value, Remaining())
      ensures r.Bad? ==> p(old(Remaining())) == Failed(r.error)
      ensures r.IoError? ==> !inner.store.Reliable()
    {
      hide *;
      ghost var whole := Remaining();
      NothingTaken(p, whole);
      var taken: Bytes := [];
      while true
        invariant Valid() && taken + Remaining() == whole
        invariant p(taken) == Failed(Truncated)
        decreases |Remaining()|
      {
        var next := TakeByte();
        if next.Refused? {
          return IoError;
        }
        if next.value.None? {
          assert taken == whole;
          return Bad(Truncated);
        }
        var b := next.value.value;
        OneMore(p, taken, b, Remaining());
        taken := taken + [b];
        assert taken + Remaining() == whole;
        match p(taken)
        case Got(value, _) =>
          return Whole(value);
        case Failed(error) =>
          if error != Truncated {
            return Bad(error);
          }
      }
    }
  }

  lemma NothingTaken<T(!new)>(p: Parser<T>, whole: Bytes)
    requires SelfDelimiting(p)
    ensures p([]) == Failed(Truncated) && [] + whole == whole
  {
  }

  /** The byte that settles an item settles it for the whole input, and is the item's last. */
  lemma OneMore<T(!new)>(p: Parser<T>, before: Bytes, b: byte, more: Bytes)
    requires SelfDelimiting(p) && p(before) == Failed(Truncated)
    ensures var t := before + [b];
            && (p(t).Got? ==> p(t + more) == Got(p(t).value, more))
            && (p(t).Failed? && p(t).error != Truncated ==> p(t + more) == p(t))
  {
    var t := before + [b];
    Extend(p, t, more);
    if p(t).Got? {
      NothingLeft(p, t);
      assert [] + more == more;
    }
  }

  lemma NothingLeft<T(!new)>(p: Parser<T>, bs: Bytes)
    requires SelfDelimiting(p) && p(bs).Got?
    requires |bs| > 0 && p(bs[..|bs| - 1]).Failed?
    ensures p(bs).rest == []
  {
    assert Suffix(p, bs);
    var rest, shorter := p(bs).rest, bs[..|bs| - 1];
    var used := bs[..|bs| - |rest|];
    var less := if rest == [] then [] else rest[..|rest| - 1];
    assert Local(p, bs, less);
    assert rest != [] ==> used + less == shorter;
  }

  datatype Next<+T> = End | Item(value: T) | Error(error: SeqError)

  /** What one call yields from the pending bytes `bs`, the bytes pending after it, and the next item's index. */
  ghost function Step<T>(p: Parser<T>, bs: Bytes, index: nat): (Next<T>, Bytes, nat) {
    if bs == [] then (End, [], index) else
      match p(bs)
      case Got(v, rest) => (Item(v), rest, index + 1)
      case Failed(error) => (Error(SeqError(index, error)), [], index)
  }

  /** A sequence parse goes step by step, with `items` parsed before it. */
  lemma ItemsStep<T(!new)>(p: Parser<T>, items: seq<T>, bs: Bytes, index: nat)
    requires SelfDelimiting(p)
    ensures var (next, rest, index') := Step(p, bs, index);
            var whole := Items(p, bs, index);
            && items <= items + whole.items
            && (next.End? ==> items + whole.items == items && whole.error == None)
            && (next.Error? ==> items + whole.items == items && whole.error == Some(next.error))
            && (next.Item? ==>
                  && |rest| < |bs|
                  && items + whole.items == items + [next.value] + Items(p, rest, index').items
                  && whole.error == Items(p, rest, index').error)
  {
    assert Progress(p, bs);
  }

  /** `SeqReader` and `StreamReader`: one item per call. The end of input is looked for before each decode, so a
      truncated last item is an error and not a clean end. */
  class SeqReader<T(!new)> {
    const src: BufReader
    const dec: Parser<T>
    var done: bool
    var index: nat

    ghost predicate Valid()
      reads this, src, src.inner, src.buf
    {
      src.Valid() && SelfDelimiting(dec)
    }

    /** What is still to be decoded: nothing once the reader has stopped. */
    ghost function Pending(): Bytes
      requires Valid()
      reads this, src, src.inner, src.buf
    {
      if done then [] else src.Remaining()
    }

    constructor (dec: Parser<T>, store: Store, chunk: nat, capacity: nat)
      requires store.Valid() && chunk > 0 && capacity > 0 && SelfDelimiting(dec)
      ensures Valid() && this.dec == dec && fresh(src) && fresh(src.inner) && fresh(src.buf)
      ensures src.inner.store == store && Pending() == store.data && index == 0
    {
      hide SelfDelimiting, Store.Valid, Store.Reliable, RangeReader.Valid, RangeReader.Remaining;
      src := new BufReader(store, chunk, capacity);
      this.dec, done, index := dec, false, 0;
    }

    /** A call takes one step over the pending bytes; only a failing store stops the reader otherwise. */
    method NextItem() returns (r: Next<T>)
      requires Valid()
      modifies this, src, src.inner, src.buf
      ensures Valid()
      ensures (r, Pending(), index) == Step(dec, old(Pending()), old(index))
              || (!src.inner.store.Reliable()
                  && (r, Pending(), index) == (Error(SeqError(old(index), Unreadable)), [], old(index)))
    {
      hide SelfDelimiting, Store.Valid, Store.Reliable, RangeReader.Valid, RangeReader.Remaining;
      if done {
        return End;
      }
      var front := src.FillBuf();
      if front.Refused? {
        done := true;
        return Error(SeqError(index, Unreadable));
      }
      if front.value == [] {
        done := true;
        return End;
      }
      var pulled := src.Pull(dec);
      match pulled
      case Whole(value) =>
        index := index + 1;
        return Item(value);
      case Bad(error) =>
        done := true;
        return Error(SeqError(index, error));
      case IoError =>
        done := true;
        return Error(SeqError(index, Unreadable));
    }

    /** Draining the reader gives the items and the error of parsing the pending bytes at once, whatever the chunk
        size, the buffer capacity and the prefixes the store serves. A failing store is reported. */
    method Drain() returns (parse: SeqParse<T>)
      requires Valid()
      modifies this, src, src.inner, src.buf
      ensures Valid() && Pending() == []
      ensures src.inner.store.Reliable() ==> parse == Items(dec, old(Pending()), old(index))
      ensures parse.items <= Items(dec, old(Pending()), old(index)).items
      ensures parse.error == None ==> parse == Items(dec, old(Pending()), old(index))
    {
      ghost var whole := Items(dec, Pending(), index);
      assert SelfDelimiting(dec);
      hide *;
      var items: seq<T> := [];
      assert items + whole.items == whole.items;
      while true
        invariant Valid()
        invariant items + Items(dec, Pending(), index).items == whole.items
        invariant Items(dec, Pending(), index).error == whole.error
        decreases |Pending()|
      {
        ItemsStep(dec, items, Pending(), index);
        var next := NextItem();
        match next
        case End =>
          return SeqParse(items, None);
        case Item(value) =>
          items := items + [value];
        case Error(error) =>
          return SeqParse(items, Some(error));
      }
    }
  }

  /** A stored object read item by item, through ranges and a buffer, is the object parsed in one piece. A store that
      fails ends the parse early, with a prefix of its items and an error: no error means the whole object was read. */
  method ReadObject<T(!new)>(dec: Parser<T>, store: Store, chunk: nat, capacity: nat) returns (parse: SeqParse<T>)
    requires store.Valid() && chunk > 0 && capacity > 0 && SelfDelimiting(dec)
    ensures store.Reliable() ==> parse == Items(dec, store.data, 0)
    ensures parse.items <= Items(dec, store.data, 0).items
    ensures parse.error == None ==> parse == Items(dec, store.data, 0)
  {
    var reader := new SeqReader(dec, store, chunk, capacity);
    parse := reader.Drain();
  }
}
