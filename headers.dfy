/**
 * The header multimap of the `http` crate (`http::HeaderMap`).  One entry
 * per header name, in the order the names were first added, each holding
 * one or more values in order; `iter()` yields every (name, value) pair,
 * the values of one name consecutively.  Names are taken as already in the
 * lower-case form `HeaderName` stores.
 */
module HttpHeaders {
  import opened Wrappers

  datatype Entry = Entry(name: string, values: seq<string>)

  /** One (name, value) pair, as `HeaderMap::iter` yields it. */
  datatype Header = Header(name: string, value: string)

  /** Names are unique and no entry is without a value. */
  predicate ValidEntries(m: seq<Entry>)
  {
    && (forall i :: 0 <= i < |m| ==> |m[i].values| > 0)
    && (forall i, j :: 0 <= i < j < |m| ==> m[i].name != m[j].name)
  }

  /** `http::HeaderName` of `"Authorization"`, lower-cased as the crate stores it. */
  const AUTHORIZATION: string := "authorization"

  function Names(m: seq<Entry>): (r: seq<string>)
    ensures |r| == |m| && forall i :: 0 <= i < |m| ==> r[i] == m[i].name
  {
    seq(|m|, i requires 0 <= i < |m| => m[i].name)
  }

  /** No entry of `m` has this name. */
  predicate NameFree(m: seq<Entry>, name: string)
  {
    forall i :: 0 <= i < |m| ==> m[i].name != name
  }

  /** No name is shared between the two. */
  predicate Disjoint(a: seq<Entry>, b: seq<Entry>)
  {
    forall i, j :: 0 <= i < |a| && 0 <= j < |b| ==> a[i].name != b[j].name
  }

  /** The position of a name's entry. */
  function Find(m: seq<Entry>, name: string): (r: Option<nat>)
    ensures r.None? <==> NameFree(m, name)
    ensures r.Some? ==> r.value < |m| && m[r.value].name == name
    // The earlier entries lack the name; stated both over the prefix, which
    // the append lemmas use, and index by index, which `FindFirst` uses.
    ensures r.Some? ==> NameFree(m[..r.value], name)
    ensures r.Some? ==> forall i :: 0 <= i < r.value ==> m[i].name != name
  {
    if m == [] then None
    else if m[0].name == name then Some(0)
    else
      match Find(m[1..], name)
      case None => None
      case Some(k) => Some(k + 1)
  }

  /** `HeaderMap::get_all`: every value stored under a name, in order. */
  function ValuesOf(m: seq<Entry>, name: string): seq<string>
  {
    match Find(m, name)
    case None => []
    case Some(k) => m[k].values
  }

  /**
   * `HeaderMap::insert`: the name's entry now holds the one new value; an
   * existing entry keeps its position and loses its old values, a new name
   * is added at the end.
   */
  function InsertValue(m: seq<Entry>, name: string, value: string): (r: seq<Entry>)
    ensures Names(r) == if name in Names(m) then Names(m) else Names(m) + [name]
  {
    match Find(m, name)
    case Some(k) => m[k := Entry(name, [value])]
    case None => m + [Entry(name, [value])]
  }

  /**
   * `HeaderMap::append` (what `RequestBuilder::header` does): the value is
   * added after the name's existing values, or under a new entry at the end.
   */
  function AppendValue(m: seq<Entry>, name: string, value: string): (r: seq<Entry>)
    ensures Names(r) == if name in Names(m) then Names(m) else Names(m) + [name]
  {
    match Find(m, name)
    case Some(k) => m[k := Entry(name, m[k].values + [value])]
    case None => m + [Entry(name, [value])]
  }

  /** The pairs of one entry. */
  function EntryPairs(name: string, values: seq<string>): (r: seq<Header>)
    ensures |r| == |values|
    ensures forall k :: 0 <= k < |r| ==> r[k] == Header(name, values[k])
  {
    if values == [] then [] else [Header(name, values[0])] + EntryPairs(name, values[1..])
  }

  /** `HeaderMap::iter`. */
  function Pairs(m: seq<Entry>): seq<Header>
  {
    if m == [] then [] else EntryPairs(m[0].name, m[0].values) + Pairs(m[1..])
  }

  /** The values a sequence of pairs carries under one name, in order. */
  function ValuesNamed(p: seq<Header>, name: string): seq<string>
  {
    if p == [] then []
    else if p[0].name == name then [p[0].value] + ValuesNamed(p[1..], name)
    else ValuesNamed(p[1..], name)
  }

  /** Appending pairs one after another, as the builder loop does. */
  function AppendAll(m: seq<Entry>, p: seq<Header>): seq<Entry>
    decreases |p|
  {
    if p == [] then m else AppendAll(AppendValue(m, p[0].name, p[0].value), p[1..])
  }

  // ---- validity ---------------------------------------------------------

  /** Insertion keeps names unique and every entry non-empty. */
  lemma InsertValid(m: seq<Entry>, name: string, value: string)
    requires ValidEntries(m)
    ensures ValidEntries(InsertValue(m, name, value))
  {
  }

  /** Appending keeps names unique and every entry non-empty. */
  lemma AppendValid(m: seq<Entry>, name: string, value: string)
    requires ValidEntries(m)
    ensures ValidEntries(AppendValue(m, name, value))
  {
  }

  // ---- insert -----------------------------------------------------------

  /** After insertion the name carries exactly the new value. */
  lemma InsertSets(m: seq<Entry>, name: string, value: string)
    ensures ValuesOf(InsertValue(m, name, value), name) == [value]
  {
    var r := InsertValue(m, name, value);
    match Find(m, name)
    case Some(k) =>
      assert r[k].name == name;
      var f := Find(r, name);
      assert f == Some(k);
    case None =>
      assert r[|m|].name == name;
      var f := Find(r, name);
      assert f == Some(|m|);
  }

  /** The first entry carrying a name is the one `Find` returns. */
  lemma FindFirst(m: seq<Entry>, name: string, j: nat)
    requires j < |m| && m[j].name == name && NameFree(m[..j], name)
    ensures Find(m, name) == Some(j)
  {
  }

  /** Insertion changes only the entry of the inserted name, or adds one at the end. */
  lemma InsertShape(m: seq<Entry>, name: string, value: string)
    ensures |InsertValue(m, name, value)| >= |m|
    ensures forall i :: 0 <= i < |m| && m[i].name != name ==> InsertValue(m, name, value)[i] == m[i]
    ensures forall i :: 0 <= i < |InsertValue(m, name, value)| ==>
              InsertValue(m, name, value)[i].name == name || (i < |m| && InsertValue(m, name, value)[i] == m[i])
  {
  }

  /** Insertion leaves every other name's values unchanged. */
  lemma InsertKeepsOthers(m: seq<Entry>, name: string, value: string, other: string)
    requires other != name
    ensures ValuesOf(InsertValue(m, name, value), other) == ValuesOf(m, other)
  {
    var r := InsertValue(m, name, value);
    InsertShape(m, name, value);
    match Find(m, other)
    case Some(j) =>
      assert r[j] == m[j];
      assert NameFree(r[..j], other) by {
        forall i | 0 <= i < j ensures r[..j][i].name != other {
          assert r[..j][i] == r[i] && m[..j][i] == m[i];
        }
      }
      FindFirst(r, other, j);
    case None =>
      assert NameFree(r, other);
  }

  // ---- iteration --------------------------------------------------------

  lemma {:induction false} ValuesNamedConcat(p: seq<Header>, q: seq<Header>, name: string)
    ensures ValuesNamed(p + q, name) == ValuesNamed(p, name) + ValuesNamed(q, name)
  {
    if p == [] {
      assert p + q == q;
    } else {
      assert (p + q)[1..] == p[1..] + q;
      ValuesNamedConcat(p[1..], q, name);
    }
  }

  lemma {:induction false} ValuesNamedEntry(n: string, values: seq<string>, name: string)
    ensures ValuesNamed(EntryPairs(n, values), name) == if n == name then values else []
  {
    if values != [] {
      var p := EntryPairs(n, values);
      assert p[1..] == EntryPairs(n, values[1..]);
      ValuesNamedEntry(n, values[1..], name);
      if n == name { assert [values[0]] + values[1..] == values; }
    }
  }

  /** Iteration yields, for each name, exactly the values stored under it. */
  lemma {:induction false} PairsValues(m: seq<Entry>, name: string)
    requires ValidEntries(m)
    ensures ValuesNamed(Pairs(m), name) == ValuesOf(m, name)
  {
    if m != [] {
      var tail := m[1..];
      assert forall i :: 0 <= i < |tail| ==> tail[i] == m[i + 1];
      ValuesNamedConcat(EntryPairs(m[0].name, m[0].values), Pairs(tail), name);
      ValuesNamedEntry(m[0].name, m[0].values, name);
      PairsValues(tail, name);
      if m[0].name == name {
        assert NameFree(tail, name);
      }
    }
  }

  /**
   * The request's iteration carries the inserted value once under the name,
   * and every other name's values as before.
   */
  lemma InsertedPairs(m: seq<Entry>, name: string, value: string, other: string)
    requires ValidEntries(m)
    ensures ValuesNamed(Pairs(InsertValue(m, name, value)), name) == [value]
    ensures other != name ==>
      ValuesNamed(Pairs(InsertValue(m, name, value)), other) == ValuesNamed(Pairs(m), other)
  {
    InsertValid(m, name, value);
    PairsValues(InsertValue(m, name, value), name);
    InsertSets(m, name, value);
    if other != name {
      PairsValues(InsertValue(m, name, value), other);
      PairsValues(m, other);
      InsertKeepsOthers(m, name, value, other);
    }
  }

  // ---- rebuilding by append -----------------------------------------------

  lemma {:induction false} AppendAllConcat(m: seq<Entry>, p: seq<Header>, q: seq<Header>)
    ensures AppendAll(m, p + q) == AppendAll(AppendAll(m, p), q)
    decreases |p|
  {
    if p == [] {
      assert p + q == q;
    } else {
      assert (p + q)[1..] == p[1..] + q;
      AppendAllConcat(AppendValue(m, p[0].name, p[0].value), p[1..], q);
    }
  }

  /** Appending under the name of the last entry, which no earlier entry has, extends it. */
  lemma AppendToLast(m: seq<Entry>, n: string, pre: seq<string>, w: string)
    requires NameFree(m, n)
    ensures AppendValue(m + [Entry(n, pre)], n, w) == m + [Entry(n, pre + [w])]
  {
    var start := m + [Entry(n, pre)];
    assert start[|m|].name == n;
    assert forall i :: 0 <= i < |m| ==> start[i] == m[i];
    assert Find(start, n) == Some(|m|);
  }

  /** Appending values one by one onto a last entry of the same name extends that entry. */
  lemma {:induction false} AppendValues(m: seq<Entry>, n: string, pre: seq<string>, ws: seq<string>)
    requires NameFree(m, n)
    ensures AppendAll(m + [Entry(n, pre)], EntryPairs(n, ws)) == m + [Entry(n, pre + ws)]
    decreases |ws|
  {
    if ws == [] {
      assert pre + ws == pre;
    } else {
      AppendEntryStep(m + [Entry(n, pre)], n, ws);
      AppendToLast(m, n, pre, ws[0]);
      AppendValues(m, n, pre + [ws[0]], ws[1..]);
      assert pre + [ws[0]] + ws[1..] == pre + ws;
    }
  }

  /** Appending the pairs of one entry under a name not yet present adds that entry. */
  lemma AppendEntryPairs(acc: seq<Entry>, e: Entry)
    requires NameFree(acc, e.name) && |e.values| > 0
    ensures AppendAll(acc, EntryPairs(e.name, e.values)) == acc + [e]
  {
    AppendEntryStep(acc, e.name, e.values);
    assert Find(acc, e.name).None?;
    AppendValues(acc, e.name, [e.values[0]], e.values[1..]);
    assert [e.values[0]] + e.values[1..] == e.values;
  }

  /** The pairs of an entry are appended first value first. */
  lemma AppendEntryStep(m: seq<Entry>, n: string, vs: seq<string>)
    requires |vs| > 0
    ensures AppendAll(m, EntryPairs(n, vs)) == AppendAll(AppendValue(m, n, vs[0]), EntryPairs(n, vs[1..]))
  {
    var p := EntryPairs(n, vs);
    assert p[0] == Header(n, vs[0]) && p[1..] == EntryPairs(n, vs[1..]);
  }

  lemma ShiftFirst(acc: seq<Entry>, m: seq<Entry>)
    requires |m| > 0
    ensures acc + [m[0]] + m[1..] == acc + m
  {
  }

  /** Moving the first entry of `m` over to `acc` keeps them apart. */
  lemma DisjointShift(acc: seq<Entry>, m: seq<Entry>)
    requires ValidEntries(m) && Disjoint(acc, m) && |m| > 0
    ensures Disjoint(acc + [m[0]], m[1..])
  {
  }

  /**
   * Appending the pairs of a header map, in iteration order, onto headers
   * whose names it does not share gives those headers followed by the map.
   */
  lemma {:induction false} AppendPairs(acc: seq<Entry>, m: seq<Entry>)
    requires ValidEntries(m) && Disjoint(acc, m)
    ensures AppendAll(acc, Pairs(m)) == acc + m
    decreases |m|
  {
    if m == [] {
      assert acc + m == acc;
    } else {
      var e, tail := m[0], m[1..];
      assert Pairs(m) == EntryPairs(e.name, e.values) + Pairs(tail);
      assert NameFree(acc, e.name);
      AppendEntryPairs(acc, e);
      AppendAllConcat(acc, EntryPairs(e.name, e.values), Pairs(tail));
      DisjointShift(acc, m);
      assert ValidEntries(tail) by {
        assert forall j :: 0 <= j < |tail| ==> tail[j] == m[j + 1];
      }
      AppendPairs(acc + [e], tail);
      ShiftFirst(acc, m);
    }
  }

  /** Appending every pair of a header map onto empty headers rebuilds the map. */
  lemma RebuildFromPairs(m: seq<Entry>)
    requires ValidEntries(m)
    ensures AppendAll([], Pairs(m)) == m
  {
    assert [] + m == m;
    AppendPairs([], m);
  }

  /** The mutable header map of a request (`req.headers_mut()`). */
  class HeaderMap {
    var entries: seq<Entry>

    ghost predicate Valid()
      reads this
    {
      ValidEntries(entries)
    }

    constructor (initial: seq<Entry>)
      requires ValidEntries(initial)
      ensures Valid() && entries == initial
    {
      entries := initial;
    }

    /** `HeaderMap::insert`, replacing in place. */
    method Insert(name: string, value: string)
      requires Valid()
      modifies this
      ensures Valid()
      ensures entries == InsertValue(old(entries), name, value)
    {
      InsertValid(entries, name, value);
      var k := Find(entries, name);
      if k.Some? {
        entries := entries[k.value := Entry(name, [value])];
      } else {
        entries := entries + [Entry(name, [value])];
      }
    }
  }
}
