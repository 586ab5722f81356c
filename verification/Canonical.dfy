/** Deterministic map-key order: RFC 8949 section 4.2.1 (core) and section 4.2.3 (length first, as CTAP2 asks). */
module Canonical {
  import opened Base
  import opened Values
  import opened ItemCodec

  datatype Canon = Core | Ctap2

  /** The order of two encoded keys. */
  predicate KeyLeq(mode: Canon, a: Bytes, b: Bytes) {
    match mode
    case Core => LexLeq(a, b)
    case Ctap2 => |a| < |b| || (|a| == |b| && LexLeq(a, b))
  }

  predicate EntryLeq(mode: Canon, a: Entry, b: Entry) {
    KeyLeq(mode, Encode(a.key), Encode(b.key))
  }

  /** A stable sort by key: equal keys keep their order. */
  function SortEntries(mode: Canon, entries: seq<Entry>): (r: seq<Entry>)
    ensures |r| == |entries|
    ensures multiset(r) == multiset(entries)
  {
    if |entries| == 0 then [] else
      assert entries == [entries[0]] + entries[1..];
      InsertEntry(mode, entries[0], SortEntries(mode, entries[1..]))
  }

  function InsertEntry(mode: Canon, e: Entry, sorted: seq<Entry>): (r: seq<Entry>)
    ensures |r| == |sorted| + 1
    ensures multiset(r) == multiset([e]) + multiset(sorted)
  {
    if |sorted| == 0 || EntryLeq(mode, e, sorted[0]) then [e] + sorted else
      assert sorted == [sorted[0]] + sorted[1..];
      [sorted[0]] + InsertEntry(mode, e, sorted[1..])
  }

  /** Reorder every map of the value, innermost first. */
  function Canonicalize(v: Cbor, mode: Canon): Cbor {
    match v
    case Array(items) => Array(CanonAll(items, mode))
    case Map(entries) => Map(SortEntries(mode, CanonEntries(entries, mode)))
    case Tag(tag, inner) => Tag(tag, Canonicalize(inner, mode))
    case _ => v
  }

  function CanonAll(items: seq<Cbor>, mode: Canon): (r: seq<Cbor>)
    ensures |r| == |items|
    ensures forall i | 0 <= i < |items| :: r[i] == Canonicalize(items[i], mode)
  {
    if |items| == 0 then [] else [Canonicalize(items[0], mode)] + CanonAll(items[1..], mode)
  }

  function CanonEntries(entries: seq<Entry>, mode: Canon): (r: seq<Entry>)
    ensures |r| == |entries|
    ensures forall i | 0 <= i < |entries| :: r[i] == CanonEntry(entries[i], mode)
  {
    if |entries| == 0 then [] else [CanonEntry(entries[0], mode)] + CanonEntries(entries[1..], mode)
  }

  function CanonEntry(e: Entry, mode: Canon): Entry {
    Entry(Canonicalize(e.key, mode), Canonicalize(e.val, mode))
  }

  // ---- The order ----

  lemma KeyOrder(mode: Canon, a: Bytes, b: Bytes)
    ensures KeyLeq(mode, a, b) || KeyLeq(mode, b, a)
    ensures KeyLeq(mode, a, b) && KeyLeq(mode, b, a) ==> a == b
  {
    LexTotal(a, b);
    if LexLeq(a, b) && LexLeq(b, a) {
      LexAntisymmetric(a, b);
    }
  }

  lemma KeyTransitive(mode: Canon, a: Bytes, b: Bytes, c: Bytes)
    requires KeyLeq(mode, a, b) && KeyLeq(mode, b, c)
    ensures KeyLeq(mode, a, c)
  {
    if LexLeq(a, b) && LexLeq(b, c) {
      LexTransitive(a, b, c);
    }
  }

  ghost predicate Sorted(mode: Canon, s: seq<Entry>) {
    forall i, j | 0 <= i < j < |s| :: EntryLeq(mode, s[i], s[j])
  }

  lemma {:induction false} InsertSorted(mode: Canon, e: Entry, s: seq<Entry>)
    requires Sorted(mode, s)
    ensures Sorted(mode, InsertEntry(mode, e, s))
  {
    if |s| > 0 {
      var r := InsertEntry(mode, e, s);
      if EntryLeq(mode, e, s[0]) {
        forall j | 0 <= j < |s|
          ensures EntryLeq(mode, e, s[j])
        {
          if j > 0 {
            KeyTransitive(mode, Encode(e.key), Encode(s[0].key), Encode(s[j].key));
          }
        }
      } else {
        KeyOrder(mode, Encode(e.key), Encode(s[0].key));
        InsertSorted(mode, e, s[1..]);
        forall x | x in r[1..]
          ensures EntryLeq(mode, s[0], x)
        {
          assert x in multiset(r[1..]);
          assert x == e || x in s[1..];
        }
      }
    }
  }

  lemma {:induction false} SortSorted(mode: Canon, s: seq<Entry>)
    ensures Sorted(mode, SortEntries(mode, s))
  {
    if |s| > 0 {
      SortSorted(mode, s[1..]);
      InsertSorted(mode, s[0], SortEntries(mode, s[1..]));
    }
  }

  lemma {:induction false} SortOfSorted(mode: Canon, s: seq<Entry>)
    requires Sorted(mode, s)
    ensures SortEntries(mode, s) == s
  {
    hide EntryLeq;
    if |s| > 0 {
      var rest := s[1..];
      assert s == [s[0]] + rest;
      assert Sorted(mode, rest) by {
        assert forall i | 0 <= i < |rest| :: rest[i] == s[i + 1];
      }
      SortOfSorted(mode, rest);
      if |s| > 1 {
        assert EntryLeq(mode, s[0], s[1]);
      }
    }
  }

  /** The entries of `s` whose key encodes as `key`, in order. */
  ghost function WithKey(s: seq<Entry>, key: Bytes): seq<Entry> {
    if |s| == 0 then []
    else if Encode(s[0].key) == key then [s[0]] + WithKey(s[1..], key)
    else WithKey(s[1..], key)
  }

  lemma {:induction false} InsertStable(mode: Canon, e: Entry, s: seq<Entry>, key: Bytes)
    requires Sorted(mode, s)
    ensures WithKey(InsertEntry(mode, e, s), key) == WithKey([e] + s, key)
  {
    assert ([e] + s)[1..] == s;
    if |s| > 0 && !EntryLeq(mode, e, s[0]) {
      InsertStable(mode, e, s[1..], key);
      assert ([e] + s[1..])[1..] == s[1..];
      KeyOrder(mode, Encode(e.key), Encode(s[0].key));
    }
  }

  /** Sorting leaves the entries of one key in their order. */
  lemma {:induction false} SortStable(mode: Canon, s: seq<Entry>, key: Bytes)
    ensures WithKey(SortEntries(mode, s), key) == WithKey(s, key)
  {
    if |s| > 0 {
      SortStable(mode, s[1..], key);
      SortSorted(mode, s[1..]);
      InsertStable(mode, s[0], SortEntries(mode, s[1..]), key);
      assert ([s[0]] + SortEntries(mode, s[1..]))[1..] == SortEntries(mode, s[1..]);
    }
  }

  /** Two sorted sequences that agree on every key are the same sequence; so whichever stable sort a library uses, the
      result is this one. */
  lemma {:induction false} StableSortUnique(mode: Canon, a: seq<Entry>, b: seq<Entry>)
    requires Sorted(mode, a) && Sorted(mode, b)
    requires forall key :: WithKey(a, key) == WithKey(b, key)
    ensures a == b
    decreases |a| + |b|
  {
    if |a| > 0 {
      HeadOfKey(mode, a, b);
    }
    if |b| > 0 {
      HeadOfKey(mode, b, a);
    }
    if |a| > 0 && |b| > 0 {
      KeyOrder(mode, Encode(a[0].key), Encode(b[0].key));
      var k := Encode(a[0].key);
      assert WithKey(a, k)[0] == a[0] && WithKey(b, k)[0] == b[0];
      forall key
        ensures WithKey(a[1..], key) == WithKey(b[1..], key)
      {
        assert WithKey(a, key) == WithKey(b, key);
        assert key == k ==> WithKey(a, key)[1..] == WithKey(a[1..], key);
        assert key == k ==> WithKey(b, key)[1..] == WithKey(b[1..], key);
      }
      StableSortUnique(mode, a[1..], b[1..]);
    }
  }

  /** The first key of `a` occurs in `b`, so the first key of `b` is not above it. */
  lemma HeadOfKey(mode: Canon, a: seq<Entry>, b: seq<Entry>)
    requires |a| > 0 && Sorted(mode, b)
    requires forall key :: WithKey(a, key) == WithKey(b, key)
    ensures |b| > 0 && KeyLeq(mode, Encode(b[0].key), Encode(a[0].key))
  {
    var k := Encode(a[0].key);
    assert WithKey(b, k) == WithKey(a, k) != [];
    var i := FirstWithKey(b, k);
    KeyOrder(mode, k, k);
    assert i > 0 ==> EntryLeq(mode, b[0], b[i]);
  }

  lemma {:induction false} FirstWithKey(s: seq<Entry>, key: Bytes) returns (i: nat)
    requires WithKey(s, key) != []
    ensures i < |s| && Encode(s[i].key) == key
  {
    if Encode(s[0].key) == key {
      i := 0;
    } else {
      i := FirstWithKey(s[1..], key);
      i := i + 1;
    }
  }

  // ---- Canonical form, independently: every map at every depth is in order ----

  ghost predicate InOrder(v: Cbor, mode: Canon) {
    match v
    case Array(items) => forall x | x in items :: InOrder(x, mode)
    case Map(entries) => Sorted(mode, entries) && forall e | e in entries :: EntryInOrder(e, mode)
    case Tag(_, inner) => InOrder(inner, mode)
    case _ => true
  }

  ghost predicate EntryInOrder(e: Entry, mode: Canon) {
    InOrder(e.key, mode) && InOrder(e.val, mode)
  }

  /** The output is in order throughout. */
  lemma {:induction false} CanonInOrder(v: Cbor, mode: Canon)
    ensures InOrder(Canonicalize(v, mode), mode)
    decreases v
  {
    hide SortEntries, EntryLeq;
    if v.Array? {
      forall i | 0 <= i < |v.items|
        ensures InOrder(CanonAll(v.items, mode)[i], mode)
      {
        CanonInOrder(v.items[i], mode);
      }
    } else if v.Map? {
      var canon := CanonEntries(v.entries, mode);
      forall i | 0 <= i < |canon|
        ensures EntryInOrder(canon[i], mode)
      {
        assert v.entries[i].key < v.entries[i] && v.entries[i].val < v.entries[i];
        CanonInOrder(v.entries[i].key, mode);
        CanonInOrder(v.entries[i].val, mode);
      }
      SortSorted(mode, canon);
      SameMembers(SortEntries(mode, canon), canon);
    } else if v.Tag? {
      CanonInOrder(v.inner, mode);
    }
  }

  // ---- The order, on the encoded bytes ----

  /** The map occurs in the value, at any depth. */
  ghost predicate HoldsMap(v: Cbor, entries: seq<Entry>) {
    match v
    case Array(items) => exists x | x in items :: HoldsMap(x, entries)
    case Map(es) => es == entries || exists e | e in es :: HoldsEntry(e, entries)
    case Tag(_, inner) => HoldsMap(inner, entries)
    case _ => false
  }

  ghost predicate HoldsEntry(e: Entry, entries: seq<Entry>) {
    HoldsMap(e.key, entries) || HoldsMap(e.val, entries)
  }

  /** Shorter first, and bytewise among equals. */
  ghost predicate LengthFirst(a: Bytes, b: Bytes) {
    |a| < |b| || (|a| == |b| && Bytewise(a, b))
  }

  /** In every map of a canonical form, at any depth, the encoded keys follow each other bytewise in core mode (RFC 8949
      section 4.2.1), and shorter first in CTAP2 mode (section 4.2.3). */
  lemma KeysFollow(v: Cbor, mode: Canon, entries: seq<Entry>, i: nat, j: nat)
    requires HoldsMap(Canonicalize(v, mode), entries) && i < j < |entries|
    ensures var a, b := Encode(entries[i].key), Encode(entries[j].key);
            match mode case Core => Bytewise(a, b) case Ctap2 => LengthFirst(a, b)
  {
    hide Canonicalize, Encode, HoldsMap, LexLeq, Bytewise;
    CanonInOrder(v, mode);
    HeldSorted(Canonicalize(v, mode), entries, mode);
    assert EntryLeq(mode, entries[i], entries[j]);
    LexIsBytewise(Encode(entries[i].key), Encode(entries[j].key));
  }

  lemma {:induction false} HeldSorted(v: Cbor, entries: seq<Entry>, mode: Canon)
    requires InOrder(v, mode) && HoldsMap(v, entries)
    ensures Sorted(mode, entries)
    decreases v
  {
    hide Sorted;
    match v
    case Array(items) =>
      var x :| x in items && HoldsMap(x, entries);
      HeldSorted(x, entries, mode);
    case Map(es) =>
      if es != entries {
        var e :| e in es && HoldsEntry(e, entries);
        assert EntryInOrder(e, mode) && e.key < e && e.val < e;
        HeldSorted(if HoldsMap(e.key, entries) then e.key else e.val, entries, mode);
      }
    case Tag(_, inner) => HeldSorted(inner, entries, mode);
  }

  /** The keys -1 and 24, encoded as 20 and 18 18, tell the modes apart. */
  lemma ModesDiffer(x: Cbor, y: Cbor)
    requires x.Integer? && y.Integer?
    ensures var first, second := Entry(Integer(-1), x), Entry(Integer(24), y);
            && Encode(first.key) == [0x20] && Encode(second.key) == [0x18, 0x18]
            && Canonicalize(Map([first, second]), Core) == Map([second, first])
            && Canonicalize(Map([second, first]), Core) == Map([second, first])
            && Canonicalize(Map([first, second]), Ctap2) == Map([first, second])
            && Canonicalize(Map([second, first]), Ctap2) == Map([first, second])
  {
    var first, second := Entry(Integer(-1), x), Entry(Integer(24), y);
    assert BE(24, 1) == BE(0, 0) + [24];
    assert Encode(first.key) == [0x20] && Encode(second.key) == [0x18, 0x18];
    TwoEntries(first, second, Core);
    TwoEntries(second, first, Core);
    TwoEntries(first, second, Ctap2);
    TwoEntries(second, first, Ctap2);
  }

  lemma TwoEntries(a: Entry, b: Entry, mode: Canon)
    requires CanonEntry(a, mode) == a && CanonEntry(b, mode) == b
    ensures Canonicalize(Map([a, b]), mode) == Map(if EntryLeq(mode, a, b) then [a, b] else [b, a])
  {
    hide EntryLeq, CanonEntry, SortEntries, CanonEntries;
    CanonPair(a, b, mode);
    SortPair(a, b, mode);
  }

  lemma CanonPair(a: Entry, b: Entry, mode: Canon)
    requires CanonEntry(a, mode) == a && CanonEntry(b, mode) == b
    ensures CanonEntries([a, b], mode) == [a, b]
  {
    hide CanonEntry;
  }

  lemma SortStep(e: Entry, rest: seq<Entry>, mode: Canon)
    ensures SortEntries(mode, [e] + rest) == InsertEntry(mode, e, SortEntries(mode, rest))
  {
    hide InsertEntry;
    assert ([e] + rest)[1..] == rest;
  }

  lemma InsertBeside(e: Entry, x: Entry, mode: Canon)
    ensures InsertEntry(mode, e, []) == [e]
    ensures InsertEntry(mode, e, [x]) == if EntryLeq(mode, e, x) then [e, x] else [x, e]
  {
    hide EntryLeq;
    assert [e] + [x] == [e, x];
    assert [x][1..] == [];
    assert InsertEntry(mode, e, []) == [e];
    assert [x] + [e] == [x, e];
  }

  lemma SortPair(a: Entry, b: Entry, mode: Canon)
    ensures SortEntries(mode, [a, b]) == if EntryLeq(mode, a, b) then [a, b] else [b, a]
  {
    hide EntryLeq, InsertEntry;
    SortStep(b, [], mode);
    SortStep(a, [b], mode);
    assert [b] + [] == [b] && [a] + [b] == [a, b];
    InsertBeside(b, b, mode);
    InsertBeside(a, b, mode);
  }

  /** What is in order throughout is not changed. */
  lemma {:induction false} InOrderFixed(v: Cbor, mode: Canon)
    requires InOrder(v, mode)
    ensures Canonicalize(v, mode) == v
    decreases v
  {
    hide SortEntries, EntryLeq;
    if v.Array? {
      forall i | 0 <= i < |v.items|
        ensures Canonicalize(v.items[i], mode) == v.items[i]
      {
        InOrderFixed(v.items[i], mode);
      }
      assert CanonAll(v.items, mode) == v.items;
    } else if v.Map? {
      forall i | 0 <= i < |v.entries|
        ensures CanonEntry(v.entries[i], mode) == v.entries[i]
      {
        var e := v.entries[i];
        assert EntryInOrder(e, mode) && e.key < e && e.val < e;
        InOrderFixed(e.key, mode);
        InOrderFixed(e.val, mode);
      }
      assert CanonEntries(v.entries, mode) == v.entries;
      SortOfSorted(mode, v.entries);
    } else if v.Tag? {
      InOrderFixed(v.inner, mode);
    }
  }

  /** A value is left as it is exactly when it is in order throughout; so a second pass changes nothing, duplicate keys
      included. */
  lemma CanonIdempotent(v: Cbor, mode: Canon)
    ensures Canonicalize(v, mode) == v <==> InOrder(v, mode)
    ensures Canonicalize(Canonicalize(v, mode), mode) == Canonicalize(v, mode)
  {
    hide *;
    CanonInOrder(v, mode);
    InOrderFixed(Canonicalize(v, mode), mode);
    if InOrder(v, mode) {
      InOrderFixed(v, mode);
    }
  }

  // ---- Values equal up to the order of map entries ----

  ghost predicate Reordered(v: Cbor, w: Cbor)
    decreases v, 0
  {
    match v
    case Array(items) => w.Array? && ReorderedAll(items, w.items)
    case Map(entries) => w.Map? && ReorderedEntries(entries, w.entries)
    case Tag(tag, inner) => w.Tag? && w.tag == tag && Reordered(inner, w.inner)
    case _ => v == w
  }

  ghost predicate ReorderedAll(xs: seq<Cbor>, ys: seq<Cbor>)
    decreases xs, 0
  {
    |xs| == |ys| && (|xs| == 0 || (Reordered(xs[0], ys[0]) && ReorderedAll(xs[1..], ys[1..])))
  }

  ghost predicate ReorderedEntries(xs: seq<Entry>, ys: seq<Entry>)
    decreases xs, 0
  {
    && |xs| == |ys|
    && (|xs| > 0 ==>
          exists j | 0 <= j < |ys| :: ReorderedEntry(xs[0], ys[j]) && ReorderedEntries(xs[1..], Without(ys, j)))
  }

  ghost predicate ReorderedEntry(x: Entry, y: Entry)
    decreases x, 0
  {
    Reordered(x.key, y.key) && Reordered(x.val, y.val)
  }

  function Without(s: seq<Entry>, j: nat): (r: seq<Entry>)
    requires j < |s|
    ensures |r| == |s| - 1
  {
    s[..j] + s[j + 1..]
  }

  lemma WithoutMultiset(s: seq<Entry>, j: nat)
    requires j < |s|
    ensures multiset(s) == multiset([s[j]]) + multiset(Without(s, j))
  {
    assert s == s[..j] + [s[j]] + s[j + 1..];
  }

  /** Two entries of one map, at any depth, whose canonical keys encode alike have the same canonical value. */
  ghost predicate NoConflict(v: Cbor, mode: Canon) {
    match v
    case Array(items) => forall x | x in items :: NoConflict(x, mode)
    case Map(entries) =>
      && UniqueByKey(CanonEntries(entries, mode))
      && (forall e | e in entries :: NoConflictEntry(e, mode))
    case Tag(_, inner) => NoConflict(inner, mode)
    case _ => true
  }

  ghost predicate NoConflictEntry(e: Entry, mode: Canon) {
    NoConflict(e.key, mode) && NoConflict(e.val, mode)
  }

  ghost predicate UniqueByKey(s: seq<Entry>) {
    forall x, y | x in s && y in s :: Encode(x.key) == Encode(y.key) ==> x == y
  }

  /** Sorted sequences of the same entries, without conflicting keys, are equal. */
  lemma {:induction false} SortedUnique(mode: Canon, a: seq<Entry>, b: seq<Entry>)
    requires Sorted(mode, a) && Sorted(mode, b)
    requires multiset(a) == multiset(b)
    requires UniqueByKey(a)
    ensures a == b
  {
    hide EntryLeq, Encode;
    assert |multiset(a)| == |multiset(b)|;
    if |a| > 0 {
      SameMembers(a, b);
      SortedHead(mode, a, b[0]);
      SortedHead(mode, b, a[0]);
      SameHead(mode, a[0], b[0]);
      assert a[0] == b[0];
      TailMultiset(a);
      TailMultiset(b);
      SortedUnique(mode, a[1..], b[1..]);
    }
  }

  lemma SameMembers(a: seq<Entry>, b: seq<Entry>)
    requires multiset(a) == multiset(b)
    ensures forall x :: x in a <==> x in b
  {
    forall x
      ensures x in a <==> x in b
    {
      assert x in a <==> x in multiset(a);
      assert x in b <==> x in multiset(b);
    }
  }

  lemma TailMultiset(s: seq<Entry>)
    requires |s| > 0
    ensures multiset(s[1..]) == multiset(s) - multiset([s[0]])
  {
    assert s == [s[0]] + s[1..];
  }

  lemma SameHead(mode: Canon, x: Entry, y: Entry)
    requires EntryLeq(mode, x, y) && EntryLeq(mode, y, x)
    ensures Encode(x.key) == Encode(y.key)
  {
    KeyOrder(mode, Encode(x.key), Encode(y.key));
  }

  lemma SortedHead(mode: Canon, s: seq<Entry>, e: Entry)
    requires Sorted(mode, s) && e in s
    ensures EntryLeq(mode, s[0], e)
  {
    KeyOrder(mode, Encode(e.key), Encode(e.key));
  }

  lemma SortUnique(mode: Canon, a: seq<Entry>, b: seq<Entry>)
    requires multiset(a) == multiset(b) && UniqueByKey(a)
    ensures SortEntries(mode, a) == SortEntries(mode, b)
  {
    hide Encode;
    SortSorted(mode, a);
    SortSorted(mode, b);
    var sorted := SortEntries(mode, a);
    forall x | x in sorted
      ensures x in a
    {
      assert x in multiset(sorted);
    }
    SortedUnique(mode, sorted, SortEntries(mode, b));
  }

  /** Values equal up to the order of map entries at any depth canonicalize to the same value, hence the same bytes,
      when no map has two entries with the same canonical key and different values. */
  lemma {:induction false} CanonDeterministic(v: Cbor, w: Cbor, mode: Canon)
    requires Reordered(v, w) && NoConflict(v, mode)
    ensures Canonicalize(v, mode) == Canonicalize(w, mode)
    ensures Encode(Canonicalize(v, mode)) == Encode(Canonicalize(w, mode))
    decreases v, 1
  {
    hide Encode, SortEntries, CanonEntries, CanonAll;
    match v
    case Array(items) => DeterministicAll(items, w.items, mode);
    case Map(entries) =>
      assert ReorderedEntries(entries, w.entries);
      DeterministicEntries(entries, w.entries, mode);
      SortUnique(mode, CanonEntries(entries, mode), CanonEntries(w.entries, mode));
    case Tag(_, inner) => CanonDeterministic(inner, w.inner, mode);
    case _ =>
  }

  lemma {:induction false} DeterministicAll(xs: seq<Cbor>, ys: seq<Cbor>, mode: Canon)
    requires ReorderedAll(xs, ys)
    requires forall x | x in xs :: NoConflict(x, mode)
    ensures CanonAll(xs, mode) == CanonAll(ys, mode)
    decreases xs, 0
  {
    if |xs| > 0 {
      assert xs[0] in xs;
      CanonDeterministic(xs[0], ys[0], mode);
      DeterministicAll(xs[1..], ys[1..], mode);
    }
  }

  lemma {:induction false} DeterministicEntries(xs: seq<Entry>, ys: seq<Entry>, mode: Canon)
    requires ReorderedEntries(xs, ys)
    requires forall e | e in xs :: NoConflictEntry(e, mode)
    ensures multiset(CanonEntries(xs, mode)) == multiset(CanonEntries(ys, mode))
    decreases xs, 0
  {
    if |xs| > 0 {
      var j :| 0 <= j < |ys| && ReorderedEntry(xs[0], ys[j]) && ReorderedEntries(xs[1..], Without(ys, j));
      assert xs[0] in xs && NoConflictEntry(xs[0], mode);
      assert xs[0].key < xs[0] && xs[0].val < xs[0];
      CanonDeterministic(xs[0].key, ys[j].key, mode);
      CanonDeterministic(xs[0].val, ys[j].val, mode);
      DeterministicEntries(xs[1..], Without(ys, j), mode);
      CanonWithout(ys, j, mode);
    }
  }

  lemma CanonWithout(s: seq<Entry>, j: nat, mode: Canon)
    requires j < |s|
    ensures multiset(CanonEntries(s, mode))
            == multiset([CanonEntry(s[j], mode)]) + multiset(CanonEntries(Without(s, j), mode))
  {
    hide Canonicalize, CanonEntries;
    var canon := CanonEntries(s, mode);
    var rest, rest' := CanonEntries(Without(s, j), mode), Without(canon, j);
    forall i | 0 <= i < |rest|
      ensures rest[i] == rest'[i]
    {
    }
    assert rest == rest';
    WithoutMultiset(canon, j);
  }

  // ---- Without that condition, order shows ----

  lemma {:induction false} ReorderedSelf(v: Cbor)
    ensures Reordered(v, v)
    decreases v, 1
  {
    if v.Array? {
      ReorderedSelfAll(v.items);
    } else if v.Map? {
      ReorderedSelfEntries(v.entries);
    } else if v.Tag? {
      ReorderedSelf(v.inner);
    }
  }

  lemma {:induction false} ReorderedSelfAll(items: seq<Cbor>)
    ensures ReorderedAll(items, items)
    decreases items, 0
  {
    if |items| > 0 {
      ReorderedSelf(items[0]);
      ReorderedSelfAll(items[1..]);
    }
  }

  lemma {:induction false} ReorderedSelfEntries(entries: seq<Entry>)
    ensures ReorderedEntries(entries, entries)
    decreases entries, 0
  {
    if |entries| > 0 {
      assert entries[0].key < entries[0] && entries[0].val < entries[0];
      ReorderedSelf(entries[0].key);
      ReorderedSelf(entries[0].val);
      ReorderedSelfEntries(entries[1..]);
      assert ReorderedEntry(entries[0], entries[0]) && Without(entries, 0) == entries[1..];
    }
  }

  /** The entries with the `i`-th first. */
  function Fronted(entries: seq<Entry>, i: nat): seq<Entry>
    requires i < |entries|
  {
    [entries[i]] + Without(entries, i)
  }

  lemma {:induction false} FrontedReorders(entries: seq<Entry>, i: nat)
    requires i < |entries|
    ensures ReorderedEntries(entries, Fronted(entries, i))
  {
    hide *;
    if i == 0 {
      FrontedHead(entries);
      ReorderedSelfEntries(entries);
    } else {
      FrontedReorders(entries[1..], i - 1);
      FrontedTail(entries, i);
      ReorderedSelf(entries[0].key);
      ReorderedSelf(entries[0].val);
      MatchedAt(entries, Fronted(entries, i), 1);
    }
  }

  lemma FrontedHead(entries: seq<Entry>)
    requires |entries| > 0
    ensures Fronted(entries, 0) == entries
  {
  }

  lemma FrontedTail(entries: seq<Entry>, i: nat)
    requires 0 < i < |entries|
    ensures var ys := Fronted(entries, i);
            |ys| == |entries| && ys[1] == entries[0] && Without(ys, 1) == Fronted(entries[1..], i - 1)
  {
  }

  /** The first entry finds its match at `j`, and the others theirs among the rest. */
  lemma MatchedAt(xs: seq<Entry>, ys: seq<Entry>, j: nat)
    requires |xs| == |ys| > 0 && j < |ys| && xs[0] == ys[j]
    requires Reordered(xs[0].key, xs[0].key) && Reordered(xs[0].val, xs[0].val)
    requires ReorderedEntries(xs[1..], Without(ys, j))
    ensures ReorderedEntries(xs, ys)
  {
    hide Reordered;
    assert ReorderedEntry(xs[0], ys[j]);
  }

  /** The canonical form of a map keeps, of all entries under one canonical key, the first one first. */
  lemma FrontedShows(entries: seq<Entry>, i: nat, mode: Canon)
    requires i < |entries|
    ensures var e := CanonEntry(entries[i], mode);
            var kept := WithKey(SortEntries(mode, CanonEntries(Fronted(entries, i), mode)), Encode(e.key));
            |kept| > 0 && kept[0] == e
  {
    hide Canonicalize, Encode, SortEntries;
    var e := CanonEntry(entries[i], mode);
    SortStable(mode, CanonEntries(Fronted(entries, i), mode), Encode(e.key));
  }

  /** If two entries of a map have the same canonical key and different values, some reordering of the map has another
      canonical form. */
  lemma ConflictShows(entries: seq<Entry>, mode: Canon)
    requires !UniqueByKey(CanonEntries(entries, mode))
    ensures exists w :: Reordered(Map(entries), w) && Canonicalize(w, mode) != Canonicalize(Map(entries), mode)
  {
    hide *;
    var i, j := Conflict(entries, mode);
    FrontedReorders(entries, i);
    FrontedReorders(entries, j);
    MapReordered(entries, Fronted(entries, i));
    MapReordered(entries, Fronted(entries, j));
    TwoForms(entries, i, j, mode);
  }

  lemma Conflict(entries: seq<Entry>, mode: Canon) returns (i: nat, j: nat)
    requires !UniqueByKey(CanonEntries(entries, mode))
    ensures i < |entries| && j < |entries|
    ensures var x, y := CanonEntry(entries[i], mode), CanonEntry(entries[j], mode);
            Encode(x.key) == Encode(y.key) && x != y
  {
    hide Encode, Canonicalize;
    var canon := CanonEntries(entries, mode);
    var x, y :| x in canon && y in canon && Encode(x.key) == Encode(y.key) && x != y;
    i :| 0 <= i < |canon| && canon[i] == x;
    j :| 0 <= j < |canon| && canon[j] == y;
  }

  lemma MapReordered(xs: seq<Entry>, ys: seq<Entry>)
    requires ReorderedEntries(xs, ys)
    ensures Reordered(Map(xs), Map(ys))
  {
  }

  lemma TwoForms(entries: seq<Entry>, i: nat, j: nat, mode: Canon)
    requires i < |entries| && j < |entries|
    requires var x, y := CanonEntry(entries[i], mode), CanonEntry(entries[j], mode);
             Encode(x.key) == Encode(y.key) && x != y
    ensures Canonicalize(Map(Fronted(entries, i)), mode) != Canonicalize(Map(Fronted(entries, j)), mode)
  {
    hide Encode, SortEntries, WithKey, CanonEntries, Fronted;
    FrontedShows(entries, i, mode);
    FrontedShows(entries, j, mode);
  }

  /** Values reordered one by one. */
  lemma {:induction false} Aligned(xs: seq<Cbor>, ys: seq<Cbor>)
    requires |xs| == |ys| && forall i | 0 <= i < |xs| :: Reordered(xs[i], ys[i])
    ensures ReorderedAll(xs, ys)
  {
    hide Reordered;
    if |xs| > 0 {
      Aligned(xs[1..], ys[1..]);
    }
  }

  lemma {:induction false} AlignedEntries(xs: seq<Entry>, ys: seq<Entry>)
    requires |xs| == |ys| && forall i | 0 <= i < |xs| :: ReorderedEntry(xs[i], ys[i])
    ensures ReorderedEntries(xs, ys)
  {
    hide ReorderedEntry;
    if |xs| > 0 {
      AlignedEntries(xs[1..], ys[1..]);
      assert Without(ys, 0) == ys[1..];
      assert ReorderedEntry(xs[0], ys[0]) && ReorderedEntries(xs[1..], Without(ys, 0));
    }
  }

  lemma ReplacedItem(items: seq<Cbor>, i: nat, w: Cbor)
    requires i < |items| && Reordered(items[i], w)
    ensures ReorderedAll(items, items[i := w])
  {
    hide Reordered;
    forall k | 0 <= k < |items|
      ensures Reordered(items[k], items[i := w][k])
    {
      ReorderedSelf(items[k]);
    }
    Aligned(items, items[i := w]);
  }

  lemma ReplacedEntry(entries: seq<Entry>, i: nat, e: Entry)
    requires i < |entries| && ReorderedEntry(entries[i], e)
    ensures ReorderedEntries(entries, entries[i := e])
  {
    hide ReorderedEntry;
    forall k | 0 <= k < |entries|
      ensures ReorderedEntry(entries[k], entries[i := e][k])
    {
      SelfEntry(entries[k]);
    }
    AlignedEntries(entries, entries[i := e]);
  }

  lemma SelfEntry(e: Entry)
    ensures ReorderedEntry(e, e)
  {
    ReorderedSelf(e.key);
    ReorderedSelf(e.val);
  }

  lemma CanonReplaced(entries: seq<Entry>, i: nat, e: Entry, mode: Canon)
    requires i < |entries|
    ensures CanonEntries(entries[i := e], mode) == CanonEntries(entries, mode)[i := CanonEntry(e, mode)]
  {
    hide CanonEntry;
  }

  lemma ReplacedMembers(s: seq<Entry>, i: nat, e: Entry)
    requires i < |s| && s[i] != e
    ensures multiset(s[i := e]) != multiset(s)
  {
    assert multiset(s[i := e])[e] == multiset(s)[e] + 1;
  }

  /** One entry with another canonical form makes another canonical map. */
  lemma EntryShows(entries: seq<Entry>, i: nat, e: Entry, mode: Canon)
    requires i < |entries| && CanonEntry(e, mode) != CanonEntry(entries[i], mode)
    ensures Canonicalize(Map(entries[i := e]), mode) != Canonicalize(Map(entries), mode)
  {
    hide SortEntries, CanonEntry, CanonEntries;
    CanonReplaced(entries, i, e, mode);
    ReplacedMembers(CanonEntries(entries, mode), i, CanonEntry(e, mode));
  }

  /** One item with another canonical form makes another canonical array. */
  lemma ItemShows(items: seq<Cbor>, i: nat, w: Cbor, mode: Canon)
    requires i < |items| && Canonicalize(w, mode) != Canonicalize(items[i], mode)
    ensures Canonicalize(Array(items[i := w]), mode) != Canonicalize(Array(items), mode)
  {
    hide CanonAll;
    assert CanonAll(items[i := w], mode)[i] != CanonAll(items, mode)[i];
  }

  /** Where the conflict of a value with unique keys lies. */
  lemma ConflictInside(v: Cbor, mode: Canon) returns (i: nat)
    requires !NoConflict(v, mode) && (v.Array? || (v.Map? && UniqueByKey(CanonEntries(v.entries, mode))))
    ensures v.Array? ==> i < |v.items| && !NoConflict(v.items[i], mode)
    ensures v.Map? ==> i < |v.entries| && !NoConflictEntry(v.entries[i], mode)
  {
    hide CanonEntries, UniqueByKey;
    if v.Array? {
      i :| 0 <= i < |v.items| && !NoConflict(v.items[i], mode);
    } else {
      i :| 0 <= i < |v.entries| && !NoConflictEntry(v.entries[i], mode);
    }
  }

  /** A conflict at any depth shows: some reordering of the value has another canonical form. */
  lemma {:induction false} ConflictShowsBelow(v: Cbor, mode: Canon) returns (w: Cbor)
    requires !NoConflict(v, mode)
    ensures Reordered(v, w) && Canonicalize(w, mode) != Canonicalize(v, mode)
  {
    hide SortEntries, CanonEntries, CanonAll, UniqueByKey, ReorderedEntries, ReorderedAll;
    match v
    case Array(items) =>
      var i := ConflictInside(v, mode);
      var x := ConflictShowsBelow(items[i], mode);
      ReplacedItem(items, i, x);
      ItemShows(items, i, x, mode);
      w := Array(items[i := x]);
    case Map(entries) =>
      if UniqueByKey(CanonEntries(entries, mode)) {
        var i := ConflictInside(v, mode);
        var e := EntryConflictShows(entries[i], mode);
        ReplacedEntry(entries, i, e);
        EntryShows(entries, i, e, mode);
        w := Map(entries[i := e]);
      } else {
        ConflictShows(entries, mode);
        w :| Reordered(v, w) && Canonicalize(w, mode) != Canonicalize(v, mode);
      }
    case Tag(tag, inner) =>
      var x := ConflictShowsBelow(inner, mode);
      w := Tag(tag, x);
  }

  lemma {:induction false} EntryConflictShows(e: Entry, mode: Canon) returns (f: Entry)
    requires !NoConflictEntry(e, mode)
    ensures ReorderedEntry(e, f) && CanonEntry(f, mode) != CanonEntry(e, mode)
  {
    hide NoConflict, Reordered, Canonicalize;
    assert e.key < e && e.val < e;
    ReorderedSelf(e.key);
    ReorderedSelf(e.val);
    if !NoConflict(e.key, mode) {
      var key := ConflictShowsBelow(e.key, mode);
      f := Entry(key, e.val);
    } else {
      var val := ConflictShowsBelow(e.val, mode);
      f := Entry(e.key, val);
    }
  }

  /** For every value: its canonical form is independent of the order of map entries, at all depths, exactly when no two
      entries of one map, at any depth, share a canonical key without being the same. */
  lemma DeterministicIff(v: Cbor, mode: Canon)
    ensures (forall w | Reordered(v, w) :: Canonicalize(w, mode) == Canonicalize(v, mode)) <==> NoConflict(v, mode)
  {
    hide Reordered, Canonicalize, NoConflict;
    if NoConflict(v, mode) {
      forall w | Reordered(v, w)
        ensures Canonicalize(w, mode) == Canonicalize(v, mode)
      {
        CanonDeterministic(v, w, mode);
      }
    } else {
      var w := ConflictShowsBelow(v, mode);
    }
  }

  // ---- The output is a permutation of the input ----

  lemma {:induction false} CanonReorders(v: Cbor, mode: Canon)
    ensures Reordered(v, Canonicalize(v, mode))
    decreases v, 1
  {
    match v
    case Array(items) => CanonReordersAll(items, mode);
    case Map(entries) => CanonReordersEntries(entries, mode);
    case Tag(_, inner) => CanonReorders(inner, mode);
    case _ =>
  }

  lemma {:induction false} CanonReordersAll(items: seq<Cbor>, mode: Canon)
    ensures ReorderedAll(items, CanonAll(items, mode))
    decreases items, 0
  {
    if |items| > 0 {
      CanonReorders(items[0], mode);
      CanonReordersAll(items[1..], mode);
      assert CanonAll(items, mode)[1..] == CanonAll(items[1..], mode);
    }
  }

  lemma {:induction false} CanonReordersEntries(entries: seq<Entry>, mode: Canon)
    ensures ReorderedEntries(entries, SortEntries(mode, CanonEntries(entries, mode)))
    decreases entries, 0
  {
    if |entries| > 0 {
      var e := entries[0];
      assert e.key < e && e.val < e;
      CanonReorders(e.key, mode);
      CanonReorders(e.val, mode);
      CanonReordersEntries(entries[1..], mode);
      var canon := CanonEntries(entries, mode);
      assert canon[1..] == CanonEntries(entries[1..], mode);
      var rest := SortEntries(mode, canon[1..]);
      var j := InsertedAt(mode, canon[0], rest);
      assert ReorderedEntry(e, SortEntries(mode, canon)[j]);
    }
  }

  /** Where an entry was inserted; taking it out again leaves the rest. */
  lemma {:induction false} InsertedAt(mode: Canon, e: Entry, s: seq<Entry>) returns (j: nat)
    ensures j <= |s| && InsertEntry(mode, e, s)[j] == e && Without(InsertEntry(mode, e, s), j) == s
  {
    hide EntryLeq, Without;
    if |s| == 0 || EntryLeq(mode, e, s[0]) {
      j := 0;
      WithoutHead(e, s);
    } else {
      var i := InsertedAt(mode, e, s[1..]);
      WithoutInTail(s[0], InsertEntry(mode, e, s[1..]), i);
      j := i + 1;
    }
  }

  lemma WithoutHead(e: Entry, s: seq<Entry>)
    ensures Without([e] + s, 0) == s
  {
  }

  lemma WithoutInTail(e: Entry, s: seq<Entry>, j: nat)
    requires j < |s|
    ensures ([e] + s)[j + 1] == s[j] && Without([e] + s, j + 1) == [e] + Without(s, j)
  {
  }

  // ---- Text keys: both modes agree ----

  predicate TextKeys(v: Cbor) {
    match v
    case Array(items) => forall x | x in items :: TextKeys(x)
    case Map(entries) => forall e | e in entries :: TextKeyed(e)
    case Tag(_, inner) => TextKeys(inner)
    case _ => true
  }

  predicate TextKeyed(e: Entry) {
    e.key.Text? && |e.key.s| < TWO_64 && TextKeys(e.val)
  }

  /** A longer text has the greater head. */
  lemma ShorterTextFirst(n: U64, m: U64, s: Bytes, t: Bytes)
    requires n < m
    ensures LexLeq(Head(3, n) + s, Head(3, m) + t)
    ensures !LexLeq(Head(3, m) + t, Head(3, n) + s)
    ensures |Head(3, n)| <= |Head(3, m)|
  {
    var a, b := Head(3, n) + s, Head(3, m) + t;
    if n < 24 || InfoFor(n) != InfoFor(m) {
      assert a[0] < b[0];
    } else {
      var w := Width(InfoFor(n));
      InfoForIsWideEnough(m);
      var x, y := BE(n, w), BE(m, w);
      LexOfBE(n, m, w);
      LexDecided(x, y, s, t);
      LexDecided(y, x, t, s);
      assert a[1..] == x + s && b[1..] == y + t;
      if LexLeq(y, x) {
        LexAntisymmetric(x, y);
      }
    }
  }

  lemma TextOrderAgrees(s: Utf8, t: Utf8)
    requires |s| < TWO_64 && |t| < TWO_64
    ensures KeyLeq(Core, Encode(Text(s)), Encode(Text(t))) == KeyLeq(Ctap2, Encode(Text(s)), Encode(Text(t)))
  {
    if |s| < |t| {
      ShorterTextFirst(|s|, |t|, s, t);
    } else if |t| < |s| {
      ShorterTextFirst(|t|, |s|, t, s);
    }
  }

  /** Sorting by two orders that agree on the entries at hand. */
  lemma {:induction false} SortAgrees(s: seq<Entry>)
    requires forall e | e in s :: e.key.Text? && |e.key.s| < TWO_64
    ensures SortEntries(Core, s) == SortEntries(Ctap2, s)
  {
    if |s| > 0 {
      SortAgrees(s[1..]);
      var rest := SortEntries(Core, s[1..]);
      forall e | e in rest
        ensures e.key.Text? && |e.key.s| < TWO_64
      {
        assert e in multiset(rest);
      }
      InsertAgrees(s[0], rest);
    }
  }

  lemma {:induction false} InsertAgrees(e: Entry, s: seq<Entry>)
    requires forall x | x in [e] + s :: x.key.Text? && |x.key.s| < TWO_64
    ensures InsertEntry(Core, e, s) == InsertEntry(Ctap2, e, s)
  {
    if |s| > 0 {
      assert e in [e] + s && s[0] in [e] + s;
      TextOrderAgrees(e.key.s, s[0].key.s);
      InsertAgrees(e, s[1..]);
    }
  }

  /** When all maps, at every depth, have text keys only, the two modes give the same result. */
  lemma {:induction false} ModesAgreeOnTextKeys(v: Cbor)
    requires TextKeys(v)
    ensures Canonicalize(v, Core) == Canonicalize(v, Ctap2)
    decreases v
  {
    match v
    case Array(items) =>
      forall i | 0 <= i < |items|
        ensures Canonicalize(items[i], Core) == Canonicalize(items[i], Ctap2)
      {
        ModesAgreeOnTextKeys(items[i]);
      }
      assert CanonAll(items, Core) == CanonAll(items, Ctap2);
    case Map(entries) =>
      var canon := CanonEntries(entries, Core);
      forall i | 0 <= i < |entries|
        ensures CanonEntry(entries[i], Core) == CanonEntry(entries[i], Ctap2) && canon[i].key == entries[i].key
      {
        assert TextKeyed(entries[i]);
        assert entries[i].val < entries[i];
        ModesAgreeOnTextKeys(entries[i].val);
      }
      assert canon == CanonEntries(entries, Ctap2);
      forall e | e in canon
        ensures e.key.Text? && |e.key.s| < TWO_64
      {
        var i :| 0 <= i < |canon| && canon[i] == e;
        assert TextKeyed(entries[i]);
      }
      SortAgrees(canon);
    case Tag(_, inner) => ModesAgreeOnTextKeys(inner);
    case _ =>
  }
}
