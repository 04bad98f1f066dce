/**
 The parts of the string library that path lookup rests on (library/common/string.cxx,
 string-utils.cxx, memory-utils.cxx).  A string is its characters up to the terminating zero.
 */
module Strings {
  import opened Options

  datatype Part = Part(startOffset: nat, length: nat)

  // ---- comparison ----

  // What operator== decides: strings of an odd length are compared with themselves.
  predicate SameName(a: string, b: string) {
    |a| == |b| && (|a| % 2 == 1 || a == b)
  }

  // Compares in units of four, two or one bytes, depending on the count; in units of one it
  // reads both sides from the first buffer.
  method Compare(first: string, second: string, count: nat) returns (equal: bool)
    requires count <= |first| && count <= |second|
    ensures equal <==> count % 2 == 1 || first[..count] == second[..count]
  {
    UnitCounts(count);
    if count % 8 == 4 || count % 8 == 0 {
      equal := CompareUnits(first, second, 4, count / 4);
    } else if count % 4 == 2 || count % 4 == 0 {
      equal := CompareUnits(first, second, 2, count / 2);
    } else {
      equal := CompareUnits(first, first, 1, count);
    }
  }

  lemma UnitCounts(count: nat)
    ensures count % 8 == 4 || count % 8 == 0 ==> Bytes(4, count / 4) == count && count % 2 == 0
    ensures count % 4 == 2 || count % 4 == 0 ==> Bytes(2, count / 2) == count && count % 2 == 0
    ensures count % 4 == 2 || count % 4 == 0 || count % 2 == 1
  {
  }

  function Bytes(unit: nat, count: nat): nat {
    if unit == 4 then 4 * count else if unit == 2 then 2 * count else count
  }

  method CompareUnits(first: string, second: string, unit: nat, count: nat) returns (equal: bool)
    requires unit == 1 || unit == 2 || unit == 4
    requires Bytes(unit, count) <= |first| && Bytes(unit, count) <= |second|
    ensures equal <==> first[..Bytes(unit, count)] == second[..Bytes(unit, count)]
  {
    for i := 0 to count
      invariant first[..Bytes(unit, i)] == second[..Bytes(unit, i)]
    {
      var at := Bytes(unit, i);
      if first[at..at + unit] != second[at..at + unit] {
        UnitDiffers(first, second, at, at + unit, Bytes(unit, count));
        return false;
      }
      assert first[..at + unit] == first[..at] + first[at..at + unit];
      assert second[..at + unit] == second[..at] + second[at..at + unit];
    }
    equal := true;
  }

  lemma UnitDiffers(a: string, b: string, from: nat, to: nat, count: nat)
    requires from <= to <= count && count <= |a| && count <= |b| && a[from..to] != b[from..to]
    ensures a[..count] != b[..count]
  {
    assert a[..count][from..to] == a[from..to] && b[..count][from..to] == b[from..to];
  }

  method Equals(left: string, right: string) returns (equal: bool)
    ensures equal <==> SameName(left, right)
  {
    if |left| != |right| {
      return false;
    }
    assert left[..|left|] == left && right[..|left|] == right;
    equal := Compare(left, right, |left|);
  }

  // It is an equality test on exactly the strings of even length.
  lemma SameNameIsEqualityIff(a: string)
    ensures (forall b: string :: SameName(a, b) <==> a == b) <==> |a| % 2 == 0
  {
    if |a| % 2 == 1 {
      var b := seq(|a|, _ => if a[0] == 'x' then 'y' else 'x');
      assert b[0] != a[0];
      assert SameName(a, b) && a != b;
    }
  }

  // ---- searching ----

  predicate OccursAt(source: string, substr: string, p: int) {
    0 <= p && p + |substr| <= |source| && source[p..p + |substr|] == substr
  }

  // The first occurrence at or after `offset`.
  method FindFirstSubstr(source: string, substr: string, offset: nat) returns (r: Option<nat>)
    ensures r.Some? ==> offset <= r.value && OccursAt(source, substr, r.value)
    ensures r.Some? ==> forall p :: offset <= p < r.value ==> !OccursAt(source, substr, p)
    ensures r.None? ==> forall p :: offset <= p ==> !OccursAt(source, substr, p)
  {
    if offset + |substr| > |source| {
      return None;
    }
    var at := offset;
    while at <= |source| - |substr|
      invariant offset <= at <= |source| - |substr| + 1
      invariant forall p :: offset <= p < at ==> !OccursAt(source, substr, p)
    {
      var equal, i := true, 0;
      while i < |substr|
        invariant i <= |substr| && source[at..at + i] == substr[..i]
        invariant equal
      {
        if source[at + i] != substr[i] {
          equal := false;
          break;
        }
        assert source[at..at + i + 1] == source[at..at + i] + [source[at + i]];
        assert substr[..i + 1] == substr[..i] + [substr[i]];
        i := i + 1;
      }
      if equal {
        return Some(at);
      }
      at := at + 1;
    }
    r := None;
  }

  // ---- splitting ----

  // A zero length stands for the rest of the string.
  function GetSubString(s: string, startPosition: nat, length: nat): string
    requires startPosition + length <= |s|
  {
    s[startPosition..startPosition + (if length == 0 then |s| - startPosition else length)]
  }

  // How many delimiters the string starts with.
  function Leading(s: string, d: char): (n: nat)
    ensures n <= |s| && (n < |s| ==> s[n] != d) && forall i :: 0 <= i < n ==> s[i] == d
  {
    if |s| > 0 && s[0] == d then 1 + Leading(s[1..], d) else 0
  }

  // The first delimiter from `p` on, or the end.
  function Next(s: string, d: char, p: nat): (q: nat)
    requires p <= |s|
    ensures p <= q <= |s| && (q < |s| ==> s[q] == d) && forall i :: p <= i < q ==> s[i] != d
    decreases |s| - p
  {
    if p == |s| || s[p] == d then p else Next(s, d, p + 1)
  }

  // The parts from position `p` on.
  function Parts(s: string, d: char, p: nat): seq<Part>
    requires p <= |s|
    decreases |s| - p
  {
    var q := Next(s, d, p);
    if q < |s| then [Part(p, q - p)] + Parts(s, d, q + 1)
    else if p < |s| then [Part(p, |s| - p)]
    else []
  }

  lemma FoundIsNext(s: string, d: char, p: nat, r: Option<nat>)
    requires p <= |s|
    requires r.Some? ==>
      p <= r.value && OccursAt(s, [d], r.value) && forall i :: p <= i < r.value ==> !OccursAt(s, [d], i)
    requires r.None? ==> forall i :: p <= i ==> !OccursAt(s, [d], i)
    ensures Next(s, d, p) == if r.Some? then r.value else |s|
  {
    forall i | p <= i < |s| ensures OccursAt(s, [d], i) <==> s[i] == d {
      assert s[i..i + 1] == [s[i]];
    }
    assert r.Some? ==> OccursAt(s, [d], r.value);
  }

  method StartsWith(s: string, d: char) returns (yes: bool)
    ensures yes <==> |s| > 0 && s[0] == d
  {
    var r := FindFirstSubstr(s, [d], 0);
    FoundIsNext(s, d, 0, r);
    yes := r == Some(0);
  }

  // Where the part after position `prev` starts.
  function PartStart(s: string, d: char, prev: nat): nat {
    if prev < |s| && s[prev] == d then prev + 1 else prev
  }

  // One round of the splitting loop.
  lemma PartsFrom(s: string, d: char, prev: nat, next: Option<nat>)
    requires prev <= |s|
    requires next.Some? ==> prev < next.value && OccursAt(s, [d], next.value)
    requires next.Some? ==> forall i :: prev < i < next.value ==> !OccursAt(s, [d], i)
    requires next.None? ==> forall i :: prev < i ==> !OccursAt(s, [d], i)
    ensures PartStart(s, d, prev) <= |s|
    ensures
      var p := PartStart(s, d, prev);
      match next
      case Some(q) => q < |s| && p <= q && s[q] == d && Parts(s, d, p) == [Part(p, q - p)] + Parts(s, d, q + 1)
      case None => Parts(s, d, p) == if p < |s| then [Part(p, |s| - p)] else []
  {
    if prev < |s| {
      FoundIsNext(s, d, prev + 1, next);
    }
  }

  method Split(s: string, d: char) returns (parts: seq<Part>)
    ensures parts == Parts(s, d, Leading(s, d))
  {
    hide Parts, OccursAt, Next;
    parts := [];
    if s == "" {
      NoParts(d);
      return;
    }
    var prev := SkipLeading(s, d);
    while true
      invariant prev <= |s| && PartStart(s, d, prev) <= |s|
      invariant parts + Parts(s, d, PartStart(s, d, prev)) == Parts(s, d, Leading(s, d))
      decreases |s| - prev
    {
      var nextPos := FindFirstSubstr(s, [d], prev + 1);
      PartsFrom(s, d, prev, nextPos);
      var slash := StartsWith(s[prev..], d);
      var startPartPos := if slash then prev + 1 else prev;
      match nextPos {
        case Some(next) =>
          parts := parts + [Part(startPartPos, next - startPartPos)];
          prev := next;
        case None =>
          var partLength := |s| - startPartPos;
          if partLength != 0 {
            parts := parts + [Part(startPartPos, partLength)];
          }
          break;
      }
    }
  }

  lemma NoParts(d: char)
    ensures Parts("", d, 0) == []
  {
  }

  method SkipLeading(s: string, d: char) returns (prev: nat)
    ensures prev == Leading(s, d)
  {
    prev := 0;
    while true
      invariant prev <= |s| && Leading(s, d) == prev + Leading(s[prev..], d)
      decreases |s| - prev
    {
      var slash := StartsWith(s[prev..], d);
      if !slash {
        break;
      }
      assert s[prev..][1..] == s[prev + 1..];
      prev := prev + 1;
    }
  }

  // Part `i` lies within the string and has no delimiter in it.
  predicate IsPart(s: string, d: char, part: Part) {
    part.startOffset + part.length <= |s|
    && forall i :: part.startOffset <= i < part.startOffset + part.length ==> s[i] != d
  }

  // The parts follow each other from position `p` on, one delimiter apart, and reach the end of
  // the string or the delimiter that ends it.
  ghost predicate Tile(s: string, d: char, p: nat, parts: seq<Part>)
    decreases |parts|
  {
    if parts == [] then p == |s|
    else
      var end := parts[0].startOffset + parts[0].length;
      && parts[0].startOffset == p && IsPart(s, d, parts[0])
      && if end == |s| then |parts| == 1 && parts[0].length > 0 else s[end] == d && Tile(s, d, end + 1, parts[1..])
  }

  lemma {:induction false} PartsTile(s: string, d: char, p: nat)
    requires p <= |s|
    ensures Tile(s, d, p, Parts(s, d, p))
    decreases |s| - p
  {
    var q := Next(s, d, p);
    if q < |s| {
      PartsTile(s, d, q + 1);
      assert Parts(s, d, p)[1..] == Parts(s, d, q + 1);
    }
  }

  lemma SameEnd(s: string, d: char, a: Part, b: Part)
    requires IsPart(s, d, a) && IsPart(s, d, b) && a.startOffset == b.startOffset
    requires a.startOffset + a.length < |s| ==> s[a.startOffset + a.length] == d
    requires b.startOffset + b.length < |s| ==> s[b.startOffset + b.length] == d
    ensures a.length == b.length
  {
  }

  // There is only one way to tile a string.
  lemma {:induction false} TilingIsUnique(s: string, d: char, p: nat, a: seq<Part>, b: seq<Part>)
    requires Tile(s, d, p, a) && Tile(s, d, p, b)
    ensures a == b
    decreases |a|
  {
    if a != [] && b != [] {
      SameEnd(s, d, a[0], b[0]);
      var end := p + a[0].length;
      if end < |s| {
        TilingIsUnique(s, d, end + 1, a[1..], b[1..]);
      }
      assert a == [a[0]] + a[1..] && b == [b[0]] + b[1..];
    }
  }

  // Names that can be joined to a path and found again.
  ghost predicate AreNames(names: seq<string>, d: char) {
    forall i :: 0 <= i < |names| ==> names[i] != "" && d !in names[i]
  }

  function Join(names: seq<string>, d: char): string {
    if names == [] then "" else [d] + names[0] + Join(names[1..], d)
  }

  // The texts of the parts of a path.
  function Texts(s: string, parts: seq<Part>): (texts: seq<string>)
    requires forall i :: 0 <= i < |parts| ==> parts[i].startOffset + parts[i].length <= |s|
    ensures |texts| == |parts| && forall i :: 0 <= i < |parts| ==>
      texts[i] == GetSubString(s, parts[i].startOffset, parts[i].length)
  {
    seq(|parts|, i requires 0 <= i < |parts| => GetSubString(s, parts[i].startOffset, parts[i].length))
  }

  lemma {:induction false} PartsInBounds(s: string, d: char, p: nat)
    requires p <= |s|
    ensures forall i :: 0 <= i < |Parts(s, d, p)| ==> IsPart(s, d, Parts(s, d, p)[i])
    decreases |s| - p
  {
    var q := Next(s, d, p);
    if q < |s| {
      PartsInBounds(s, d, q + 1);
    }
  }

  // One name of a path, between two delimiters or at the end.
  lemma NameInPath(pre: string, name: string, rest: string, d: char, s: string)
    requires s == pre + [d] + name + rest && d !in name && (rest == "" || rest[0] == d)
    ensures
      var p := |pre| + 1;
      p + |name| <= |s| && Next(s, d, p) == p + |name| && s[p..p + |name|] == name
  {
    var p := |pre| + 1;
    assert forall i :: p <= i < p + |name| ==> s[i] == name[i - p];
    assert rest != "" ==> s[p + |name|] == rest[0];
  }

  lemma {:induction false} PartsOfJoin(pre: string, names: seq<string>, d: char, s: string)
    requires AreNames(names, d) && names != [] && s == pre + Join(names, d)
    ensures |pre| < |s|
    ensures Spell(s, d, Parts(s, d, |pre| + 1), names)
    decreases |names|
  {
    hide AreNames, Next, Parts, Join, TextIs, Spell;
    var name, rest := names[0], names[1..];
    var p := |pre| + 1;
    FirstName(names, d);
    JoinFrom(pre, names, d);
    NameInPath(pre, name, Join(rest, d), d, s);
    PartTextIs(s, d, p, name);
    PartsUnfold(s, d, p);
    assert names == [name] + rest;
    if rest == [] {
      SpellOneMore(s, d, Part(p, |name|), name, [], []);
      assert [Part(p, |name|)] + [] == [Part(p, |name|)] && [name] + [] == names;
    } else {
      PartsOfJoin(pre + [d] + name, rest, d, s);
      SpellOneMore(s, d, Part(p, |name|), name, Parts(s, d, p + |name| + 1), rest);
    }
  }

  lemma PartsUnfold(s: string, d: char, p: nat)
    requires p <= |s|
    ensures
      var q := Next(s, d, p);
      Parts(s, d, p)
      == if q < |s| then [Part(p, q - p)] + Parts(s, d, q + 1) else if p < |s| then [Part(p, |s| - p)] else []
  {
  }

  lemma PartTextIs(s: string, d: char, p: nat, name: string)
    requires p + |name| <= |s| && Next(s, d, p) == p + |name| && s[p..p + |name|] == name && name != ""
    ensures TextIs(s, d, Part(p, |name|), name)
  {
  }

  ghost predicate TextIs(s: string, d: char, part: Part, name: string) {
    IsPart(s, d, part) && GetSubString(s, part.startOffset, part.length) == name
  }

  lemma FirstName(names: seq<string>, d: char)
    requires AreNames(names, d) && names != []
    ensures names[0] != "" && d !in names[0] && AreNames(names[1..], d)
  {
  }

  lemma JoinFrom(pre: string, names: seq<string>, d: char)
    requires names != []
    ensures pre + Join(names, d) == pre + [d] + names[0] + Join(names[1..], d)
    ensures Join(names[1..], d) == "" || Join(names[1..], d)[0] == d
    ensures names[1..] == [] <==> Join(names[1..], d) == ""
  {
  }

  // Parts that read as the names.
  ghost predicate Spell(s: string, d: char, parts: seq<Part>, names: seq<string>) {
    |parts| == |names| && forall i :: 0 <= i < |names| ==> TextIs(s, d, parts[i], names[i])
  }

  lemma SpellOneMore(s: string, d: char, part: Part, name: string, parts: seq<Part>, names: seq<string>)
    requires TextIs(s, d, part, name) && ((names == [] && parts == []) || Spell(s, d, parts, names))
    ensures Spell(s, d, [part] + parts, [name] + names)
  {
    hide TextIs;
    forall i | 0 <= i < |names| + 1 ensures TextIs(s, d, ([part] + parts)[i], ([name] + names)[i]) {
    }
  }

  lemma SpelledTexts(s: string, d: char, parts: seq<Part>, names: seq<string>)
    requires Spell(s, d, parts, names)
    ensures forall i :: 0 <= i < |parts| ==> IsPart(s, d, parts[i])
    ensures forall i :: 0 <= i < |parts| ==> parts[i].startOffset + parts[i].length <= |s|
    ensures Texts(s, parts) == names
  {
    hide GetSubString;
    forall i | 0 <= i < |parts| ensures IsPart(s, d, parts[i]) {
      assert TextIs(s, d, parts[i], names[i]);
    }
  }

  // Splitting a path of names gives the names.
  lemma SplitJoin(names: seq<string>, d: char)
    requires AreNames(names, d) && names != []
    ensures
      var s := Join(names, d);
      var parts := Parts(s, d, Leading(s, d));
      && (forall i :: 0 <= i < |parts| ==> IsPart(s, d, parts[i]))
      && Texts(s, parts) == names
  {
    hide Parts, Next, AreNames, Join, Leading, TextIs, IsPart;
    var s := Join(names, d);
    StartOfPath(names, d);
    PartsOfJoin("", names, d, s);
    SpelledTexts(s, d, Parts(s, d, 1), names);
  }

  lemma StartOfPath(names: seq<string>, d: char)
    requires AreNames(names, d) && names != []
    ensures Leading(Join(names, d), d) == 1 && Join(names, d) == "" + Join(names, d)
  {
    hide Leading;
    FirstName(names, d);
    LeadingOne(Join(names, d), d, names[0]);
  }

  lemma LeadingOne(s: string, d: char, name: string)
    requires name != "" && d !in name && |s| > |name| && s[0] == d && s[1..1 + |name|] == name
    ensures Leading(s, d) == 1
  {
    assert s[1] == name[0] && name[0] in name;
  }
}
