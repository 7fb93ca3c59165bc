/** Persistent headers: a base list under a chain of patches. */
module Headers {
  import opened Bytes

  type RawItem = (seq<byte>, seq<byte>)

  datatype Headers =
    | Base(items: seq<RawItem>)
    | Patch(parent: Headers, setItems: seq<RawItem>, setLowers: set<seq<byte>>)

  datatype PatchError = NameNotAscii | ValueNotLatin1 | DuplicateName

  datatype Patched = Ok(headers: Headers) | Err(error: PatchError)

  // ---- text and bytes ----

  predicate IsAscii(s: string) {
    forall i :: 0 <= i < |s| ==> s[i] as int < 128
  }

  function EncodeName(s: string): seq<byte>
    requires IsAscii(s)
  {
    Encode(s)
  }

  predicate IsLatin1(s: string) {
    forall i :: 0 <= i < |s| ==> s[i] as int < 256
  }

  function Encode(s: string): (r: seq<byte>)
    requires IsLatin1(s)
    ensures Decode(r) == s
  {
    seq(|s|, i requires 0 <= i < |s| => s[i] as int as byte)
  }

  function Decode(b: seq<byte>): (r: string)
    ensures IsLatin1(r) && |r| == |b|
  {
    seq(|b|, i requires 0 <= i < |b| => b[i] as int as char)
  }

  function LowerByte(b: byte): byte {
    if 65 <= b <= 90 then b + 32 else b
  }

  function Lower(b: seq<byte>): seq<byte> {
    seq(|b|, i requires 0 <= i < |b| => LowerByte(b[i]))
  }

  // ---- lists of items ----

  /** The decoded values of the items with this lowercase name, in order. */
  function ValuesOf(items: seq<RawItem>, lower: seq<byte>): seq<string> {
    if items == [] then []
    else (if Lower(items[0].0) == lower then [Decode(items[0].1)] else []) + ValuesOf(items[1..], lower)
  }

  /** The items whose lowercase names are not in the set, in order. */
  function Except(items: seq<RawItem>, lowers: set<seq<byte>>): seq<RawItem> {
    if items == [] then []
    else (if Lower(items[0].0) in lowers then [] else [items[0]]) + Except(items[1..], lowers)
  }

  function LowersOf(items: seq<RawItem>): set<seq<byte>> {
    set i | 0 <= i < |items| :: Lower(items[i].0)
  }

  predicate DistinctNames(items: seq<RawItem>) {
    forall i, j :: 0 <= i < j < |items| ==> Lower(items[i].0) != Lower(items[j].0)
  }

  /** Headers as the constructors make them. */
  predicate Valid(h: Headers) {
    match h
    case Base(_) => true
    case Patch(parent, setItems, setLowers) =>
      Valid(parent) && setLowers == LowersOf(setItems) && DistinctNames(setItems)
  }

  // ---- lookup ----

  function GetAll(h: Headers, name: string): Option<seq<string>> {
    if !IsAscii(name) then None
    else
      var lower := Lower(Encode(name));
      match h
      case Patch(parent, setItems, setLowers) =>
        if lower in setLowers then Some(ValuesOf(setItems, lower)) else GetAll(parent, name)
      case Base(items) =>
        var values := ValuesOf(items, lower);
        if values == [] then None else Some(values)
  }

  function Raw(h: Headers): seq<RawItem> {
    match h
    case Base(items) => items
    case Patch(parent, setItems, setLowers) => Except(Raw(parent), setLowers) + setItems
  }

  // ---- patching ----

  function ItemOf(v: (string, string)): RawItem
    requires Encodable(v)
  {
    (Encode(v.0), Encode(v.1))
  }

  predicate Encodable(v: (string, string)) {
    IsAscii(v.0) && IsLatin1(v.1)
  }

  /** The first thing wrong with the items, taken in order. */
  function PatchFault(values: seq<(string, string)>, seen: set<seq<byte>>): Option<PatchError> {
    if values == [] then None
    else if !IsAscii(values[0].0) then Some(NameNotAscii)
    else if Lower(Encode(values[0].0)) in seen then Some(DuplicateName)
    else if !IsLatin1(values[0].1) then Some(ValueNotLatin1)
    else PatchFault(values[1..], seen + {Lower(Encode(values[0].0))})
  }

  function ItemsOf(values: seq<(string, string)>): seq<RawItem>
    requires forall i :: 0 <= i < |values| ==> Encodable(values[i])
  {
    seq(|values|, i requires 0 <= i < |values| && Encodable(values[i]) => ItemOf(values[i]))
  }

  /** Exactly the patches that encode and name each header once are accepted. */
  predicate Acceptable(values: seq<(string, string)>) {
    && (forall i :: 0 <= i < |values| ==> Encodable(values[i]))
    && DistinctNames(ItemsOf(values))
  }

  lemma LowersSnoc(items: seq<RawItem>, item: RawItem)
    ensures LowersOf(items + [item]) == LowersOf(items) + {Lower(item.0)}
  {
    var all := items + [item];
    forall lower ensures lower in LowersOf(all) <==> lower in LowersOf(items) || lower == Lower(item.0) {
      if lower in LowersOf(items) {
        var i :| 0 <= i < |items| && Lower(items[i].0) == lower;
        assert all[i] == items[i];
      }
      assert all[|items|] == item;
    }
  }

  lemma AcceptedNamesDiffer(values: seq<(string, string)>, k: nat, i: nat)
    requires Acceptable(values) && k < i < |values|
    ensures Lower(Encode(values[k].0)) != Lower(Encode(values[i].0))
  {
    assert Lower(ItemsOf(values)[k].0) != Lower(ItemsOf(values)[i].0);
  }

  method PatchSet(h: Headers, values: seq<(string, string)>) returns (r: Patched)
    requires Valid(h)
    ensures r.Ok? <==> Acceptable(values)
    ensures r.Ok? ==> Valid(r.headers)
    ensures r.Ok? ==> r.headers == if values == [] then h else Patch(h, ItemsOf(values), LowersOf(ItemsOf(values)))
    ensures r.Err? ==> PatchFault(values, {}) == Some(r.error)
  {
    if values == [] { return Ok(h); }
    var lowered: set<seq<byte>> := {};
    var setItems: seq<RawItem> := [];
    for i := 0 to |values|
      invariant |setItems| == i && DistinctNames(setItems) && lowered == LowersOf(setItems)
      invariant forall k :: 0 <= k < i ==> Encodable(values[k]) && setItems[k] == ItemOf(values[k])
      invariant PatchFault(values, {}) == PatchFault(values[i..], lowered)
    {
      var (name, value) := values[i];
      if !IsAscii(name) { return Err(NameNotAscii); }
      var lower := Lower(Encode(name));
      if lower in lowered {
        var k :| 0 <= k < |setItems| && Lower(setItems[k].0) == lower;
        if Acceptable(values) { AcceptedNamesDiffer(values, k, i); }
        return Err(DuplicateName);
      }
      if !IsLatin1(value) { return Err(ValueNotLatin1); }
      LowersSnoc(setItems, (Encode(name), Encode(value)));
      lowered, setItems := lowered + {lower}, setItems + [(Encode(name), Encode(value))];
    }
    assert setItems == ItemsOf(values);
    r := Ok(Patch(h, setItems, lowered));
  }

  // ---- letter case, filters and faults ----

  /** The same character, or the same letter in either case. */
  predicate SameLetter(x: byte, y: byte) {
    || x == y
    || exists i :: 0 <= i < 26 &&
         ((x as int == UPPER[i] as int && y as int == LOWER[i] as int)
          || (x as int == LOWER[i] as int && y as int == UPPER[i] as int))
  }

  predicate SameName(a: seq<byte>, b: seq<byte>) {
    |a| == |b| && forall i :: 0 <= i < |a| ==> SameLetter(a[i], b[i])
  }

  lemma LowerByteIff(x: byte, y: byte)
    ensures LowerByte(x) == LowerByte(y) <==> SameLetter(x, y)
  {
    Letters();
    hide UPPER, LOWER;
    if x != y && LowerByte(x) == LowerByte(y) {
      var i := LowerByte(x) as int - 97;
      assert 0 <= i < 26 && UPPER[i] as int == 65 + i && LOWER[i] as int == 97 + i;
    }
  }

  /** Two names are one header exactly if they differ at most in the case of letters. */
  lemma LowerIff(a: seq<byte>, b: seq<byte>)
    ensures Lower(a) == Lower(b) <==> SameName(a, b)
  {
    forall i | 0 <= i < |a| && i < |b| ensures Lower(a)[i] == Lower(b)[i] <==> SameLetter(a[i], b[i]) {
      LowerByteIff(a[i], b[i]);
    }
    hide SameLetter, LowerByte;
    if |a| == |b| && Lower(a) == Lower(b) {
      forall i | 0 <= i < |a| ensures SameLetter(a[i], b[i]) { assert Lower(a)[i] == Lower(b)[i]; }
    }
    if SameName(a, b) {
      forall i | 0 <= i < |a| ensures Lower(a)[i] == Lower(b)[i] { assert SameLetter(a[i], b[i]); }
    }
  }

  /** No lookup tells apart names that differ in case only. */
  lemma LookupIgnoresCase(h: Headers, name: string, other: string)
    requires IsAscii(name) && IsAscii(other) && SameName(Encode(name), Encode(other))
    ensures GetAll(h, name) == GetAll(h, other)
    decreases h
  {
    LowerIff(Encode(name), Encode(other));
    if h.Patch? { LookupIgnoresCase(h.parent, name, other); }
  }

  /** Bytes read as Latin-1 and back; ASCII and Latin-1 are the first 128 and 256 characters. */
  lemma DecodeIs(b: seq<byte>, c: char)
    ensures IsAscii([c]) <==> c as int <= 127
    ensures IsLatin1([c]) <==> c as int <= 255
    ensures forall i :: 0 <= i < |b| ==> Decode(b)[i] as int == b[i] as int
    ensures Encode(Decode(b)) == b
  {
    assert [c][0] == c;
  }

  /** The values under a name: item by item, in order. */
  lemma ValuesAre(items: seq<RawItem>, item: RawItem, name: seq<byte>)
    ensures ValuesOf([], Lower(name)) == []
    ensures ValuesOf(items + [item], Lower(name)) ==
      ValuesOf(items, Lower(name)) + (if SameName(item.0, name) then [Decode(item.1)] else [])
  {
    LowerIff(item.0, name);
    ValuesAppend(items, [item], Lower(name));
    assert ValuesOf([item][1..], Lower(name)) == [];
  }

  /** What is left out and what stays: item by item, in order. */
  lemma ExceptIs(items: seq<RawItem>, item: RawItem, names: seq<RawItem>)
    ensures Except([], LowersOf(names)) == []
    ensures Except(items + [item], LowersOf(names)) ==
      Except(items, LowersOf(names)) +
      (if exists i :: 0 <= i < |names| && SameName(item.0, names[i].0) then [] else [item])
  {
    ExceptAppend(items, [item], LowersOf(names));
    assert Except([item][1..], LowersOf(names)) == [];
    forall i | 0 <= i < |names| ensures SameName(item.0, names[i].0) <==> Lower(item.0) == Lower(names[i].0) {
      LowerIff(item.0, names[i].0);
    }
  }

  /** What is wrong with one item of a patch, if anything: its name, its name again, its value. */
  ghost predicate FaultAt(values: seq<(string, string)>, i: nat, fault: Option<PatchError>)
    requires i < |values| && forall k :: 0 <= k < i ==> IsAscii(values[k].0)
  {
    fault ==
      if !IsAscii(values[i].0) then Some(NameNotAscii)
      else if exists k :: 0 <= k < i && SameName(EncodeName(values[k].0), EncodeName(values[i].0)) then Some(DuplicateName)
      else if !IsLatin1(values[i].1) then Some(ValueNotLatin1)
      else None
  }

  /** The fault reported is that of the first item with one. */
  lemma FaultIs(values: seq<(string, string)>) returns (at: nat)
    requires PatchFault(values, {}).Some?
    ensures at < |values| && forall k :: 0 <= k < at ==> IsAscii(values[k].0)
    ensures FaultAt(values, at, PatchFault(values, {}))
    ensures forall i: nat :: i < at ==> FaultAt(values, i, None)
  {
    assert values[0..] == values;
    at := FaultFrom(values, 0, {});
  }

  /** A patch is accepted exactly if no item of it has a fault. */
  lemma AcceptedIff(values: seq<(string, string)>)
    ensures Acceptable(values) <==>
      (forall i :: 0 <= i < |values| ==> IsAscii(values[i].0)) && forall i: nat :: i < |values| ==> FaultAt(values, i, None)
  {
    if Acceptable(values) {
      assert forall i :: 0 <= i < |values| ==> Encodable(values[i]);
      forall i: nat | i < |values| ensures FaultAt(values, i, None) {
        if k :| 0 <= k < i && SameName(EncodeName(values[k].0), EncodeName(values[i].0)) {
          LowerIff(EncodeName(values[k].0), EncodeName(values[i].0));
          AcceptedNamesDiffer(values, k, i);
        }
      }
    } else if (forall i :: 0 <= i < |values| ==> IsAscii(values[i].0))
      && forall i: nat :: i < |values| ==> FaultAt(values, i, None)
    {
      forall i | 0 <= i < |values| ensures Encodable(values[i]) { assert FaultAt(values, i, None); }
      forall k, i | 0 <= k < i < |values| ensures Lower(ItemsOf(values)[k].0) != Lower(ItemsOf(values)[i].0) {
        assert FaultAt(values, i, None);
        LowerIff(EncodeName(values[k].0), EncodeName(values[i].0));
      }
    }
  }

  lemma {:induction false} FaultFrom(values: seq<(string, string)>, n: nat, seen: set<seq<byte>>) returns (at: nat)
    requires n <= |values| && forall k :: 0 <= k < n ==> IsAscii(values[k].0)
    requires forall k: nat :: k < n ==> FaultAt(values, k, None)
    requires forall lower :: lower in seen <==> exists k :: 0 <= k < n && Lower(EncodeName(values[k].0)) == lower
    requires PatchFault(values[n..], seen).Some?
    ensures n <= at < |values| && forall k :: 0 <= k < at ==> IsAscii(values[k].0)
    ensures FaultAt(values, at, PatchFault(values[n..], seen))
    ensures forall i: nat :: i < at ==> FaultAt(values, i, None)
    decreases |values| - n
  {
    assert values[n..][0] == values[n] && values[n..][1..] == values[n + 1..];
    if IsAscii(values[n].0) {
      var lower := Lower(Encode(values[n].0));
      forall k | 0 <= k < n
        ensures Lower(EncodeName(values[k].0)) == lower <==> SameName(EncodeName(values[k].0), EncodeName(values[n].0))
      {
        LowerIff(EncodeName(values[k].0), EncodeName(values[n].0));
      }
      if lower !in seen && IsLatin1(values[n].1) {
        assert FaultAt(values, n, None);
        at := FaultFrom(values, n + 1, seen + {lower});
        return;
      }
    }
    at := n;
  }

  // ---- what lookups and patches mean ----

  lemma {:induction false} ValuesAppend(a: seq<RawItem>, b: seq<RawItem>, lower: seq<byte>)
    ensures ValuesOf(a + b, lower) == ValuesOf(a, lower) + ValuesOf(b, lower)
  {
    if a == [] {
      assert a + b == b;
    } else {
      assert (a + b)[1..] == a[1..] + b;
      ValuesAppend(a[1..], b, lower);
    }
  }

  /** Leaving names out removes their values and no others. */
  lemma {:induction false} ValuesExcept(items: seq<RawItem>, lowers: set<seq<byte>>, lower: seq<byte>)
    ensures ValuesOf(Except(items, lowers), lower) == if lower in lowers then [] else ValuesOf(items, lower)
  {
    if items != [] {
      ValuesExcept(items[1..], lowers, lower);
      var head := if Lower(items[0].0) in lowers then [] else [items[0]];
      ValuesAppend(head, Except(items[1..], lowers), lower);
    }
  }

  lemma {:induction false} ValuesOfAbsent(items: seq<RawItem>, lower: seq<byte>)
    ensures (ValuesOf(items, lower) == []) <==> lower !in LowersOf(items)
  {
    if items != [] {
      ValuesOfAbsent(items[1..], lower);
      forall i | 0 < i < |items| ensures items[i] == items[1..][i - 1] {}
      if lower in LowersOf(items) && Lower(items[0].0) != lower {
        var i :| 0 <= i < |items| && Lower(items[i].0) == lower;
        assert items[1..][i - 1] == items[i];
      }
      if lower in LowersOf(items[1..]) {
        var i :| 0 <= i < |items[1..]| && Lower(items[1..][i].0) == lower;
        assert items[i + 1] == items[1..][i];
      }
    }
  }

  /** The layered lookup agrees with filtering the flattened list, in order. */
  lemma {:induction false} LookupIsFilter(h: Headers, name: string)
    requires Valid(h)
    ensures GetAll(h, name) ==
      if IsAscii(name) && ValuesOf(Raw(h), Lower(Encode(name))) != []
      then Some(ValuesOf(Raw(h), Lower(Encode(name)))) else None
    decreases h
  {
    if h.Patch? && IsAscii(name) {
      var lower := Lower(Encode(name));
      ValuesAppend(Except(Raw(h.parent), h.setLowers), h.setItems, lower);
      ValuesExcept(Raw(h.parent), h.setLowers, lower);
      ValuesOfAbsent(h.setItems, lower);
      LookupIsFilter(h.parent, name);
      hide ValuesOf, LowersOf, Except, Encode, Lower;
      assert ValuesOf(Raw(h), lower) ==
        if lower in h.setLowers then ValuesOf(h.setItems, lower) else ValuesOf(Raw(h.parent), lower);
    }
  }

  /** A header named once in a list has one value there. */
  lemma {:induction false} ValuesOfOne(items: seq<RawItem>, k: nat)
    requires DistinctNames(items) && k < |items|
    ensures ValuesOf(items, Lower(items[k].0)) == [Decode(items[k].1)]
  {
    var rest := items[1..];
    assert forall i :: 0 <= i < |rest| ==> rest[i] == items[i + 1];
    if k == 0 {
      ValuesOfAbsent(rest, Lower(items[0].0));
    } else {
      ValuesOfOne(rest, k - 1);
    }
  }

  /** A patched header has exactly its new value; every other header reads as before. */
  lemma PatchReplaces(h: Headers, values: seq<(string, string)>, name: string)
    requires Valid(h) && values != [] && Acceptable(values)
    ensures
      var g := Patch(h, ItemsOf(values), LowersOf(ItemsOf(values)));
      && Valid(g)
      && (forall k :: 0 <= k < |values| && IsAscii(name) && Lower(Encode(name)) == Lower(Encode(values[k].0)) ==>
            GetAll(g, name) == Some([values[k].1]))
      && ((forall k :: 0 <= k < |values| && IsAscii(name) ==> Lower(Encode(name)) != Lower(Encode(values[k].0))) ==>
            GetAll(g, name) == GetAll(h, name))
  {
    var items := ItemsOf(values);
    forall k | 0 <= k < |values| && IsAscii(name) && Lower(Encode(name)) == Lower(Encode(values[k].0))
      ensures ValuesOf(items, Lower(Encode(name))) == [values[k].1] && Lower(Encode(name)) in LowersOf(items)
    {
      ValuesOfOne(items, k);
    }
  }

  lemma {:induction false} ExceptTwice(items: seq<RawItem>, a: set<seq<byte>>, b: set<seq<byte>>)
    ensures Except(Except(items, a), b) == Except(items, a + b)
  {
    if items != [] {
      ExceptTwice(items[1..], a, b);
      var rest := Except(items[1..], a);
      if Lower(items[0].0) in a {
        assert Except(items, a) == rest;
      } else {
        assert Except(items, a)[1..] == rest;
      }
    }
  }

  lemma {:induction false} ExceptAll(items: seq<RawItem>, lowers: set<seq<byte>>)
    requires LowersOf(items) <= lowers
    ensures Except(items, lowers) == []
  {
    if items != [] {
      assert Lower(items[0].0) in LowersOf(items);
      forall i | 0 <= i < |items[1..]| ensures Lower(items[1..][i].0) in lowers {
        assert items[1..][i] == items[i + 1] && Lower(items[i + 1].0) in LowersOf(items);
      }
      ExceptAll(items[1..], lowers);
    }
  }

  lemma {:induction false} ExceptAppend(a: seq<RawItem>, b: seq<RawItem>, lowers: set<seq<byte>>)
    ensures Except(a + b, lowers) == Except(a, lowers) + Except(b, lowers)
  {
    if a == [] {
      assert a + b == b;
    } else {
      assert (a + b)[1..] == a[1..] + b;
      ExceptAppend(a[1..], b, lowers);
    }
  }

  /** Patching leaves every item of another name where it was, in its order; the new items follow. */
  lemma PatchKeepsOthers(h: Headers, setItems: seq<RawItem>)
    ensures
      var lowers := LowersOf(setItems);
      Except(Raw(Patch(h, setItems, lowers)), lowers) == Except(Raw(h), lowers)
      && Raw(Patch(h, setItems, lowers)) == Except(Raw(h), lowers) + setItems
  {
    var lowers := LowersOf(setItems);
    ExceptAppend(Except(Raw(h), lowers), setItems, lowers);
    ExceptTwice(Raw(h), lowers, lowers);
    assert lowers + lowers == lowers;
    ExceptAll(setItems, lowers);
  }

  /** Headers that flatten alike answer every lookup alike, whatever their patch history. */
  lemma EqualLookups(g: Headers, h: Headers, name: string)
    requires Valid(g) && Valid(h) && Raw(g) == Raw(h)
    ensures GetAll(g, name) == GetAll(h, name)
  {
    LookupIsFilter(g, name);
    LookupIsFilter(h, name);
  }

  /** A later patch of the same names hides an earlier one completely. */
  lemma PatchOverPatch(h: Headers, first: seq<RawItem>, second: seq<RawItem>)
    requires LowersOf(first) <= LowersOf(second)
    ensures Raw(Patch(Patch(h, first, LowersOf(first)), second, LowersOf(second)))
         == Raw(Patch(h, second, LowersOf(second)))
  {
    var a, b := LowersOf(first), LowersOf(second);
    ExceptAppend(Except(Raw(h), a), first, b);
    ExceptTwice(Raw(h), a, b);
    assert a + b == b;
    ExceptAll(first, b);
  }
}
