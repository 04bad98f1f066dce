/** The host-side walk over a directory tree (utils/lite-fs/source/lite-fs.cxx:16-64). */
module LiteFsTree {
  import opened LiteFsFormat
  import opened LiteFsWriter

  // What a directory listing holds, in the order in which the host lists it.
  datatype Entries =
    | Nil
    | File(name: string, data: seq<Byte>, rest: Entries)
    | Directory(name: string, entries: Entries, rest: Entries)

  function Length(e: Entries): nat {
    match e
    case Nil => 0
    case File(_, _, rest) => 1 + Length(rest)
    case Directory(_, _, rest) => 1 + Length(rest)
  }

  // All objects in a listing and below.
  function Size(e: Entries): nat {
    match e
    case Nil => 0
    case File(_, _, rest) => 1 + Size(rest)
    case Directory(_, entries, rest) => 1 + Size(entries) + Size(rest)
  }

  // The objects that name `id` as their parent.
  function ChildCount(objects: seq<FileSystemObject>, id: nat): nat {
    if objects == [] then 0 else (if objects[0].parentId == id then 1 else 0) + ChildCount(objects[1..], id)
  }

  // Each directory comes before what is in it.  The number after a directory's own is the one
  // that its entries start with, and its next sibling skips only as many as it has entries.
  function Walk(e: Entries, startId: nat, parentId: nat): seq<FileSystemObject> {
    match e
    case Nil => []
    case File(name, data, rest) =>
      [FileSystemObject(startId, parentId, name, data, |data|, false)] + Walk(rest, startId + 1, parentId)
    case Directory(name, entries, rest) =>
      var sub := Walk(entries, startId + 1, startId);
      var count := ChildCount(sub, startId);
      [FileSystemObject(startId, parentId, name, [], count, true)] + sub + Walk(rest, startId + count + 1, parentId)
  }

  // What a walk that stands at `e` has still to add to get `all`.
  ghost predicate Pending(objects: seq<FileSystemObject>, e: Entries, id: nat, parentId: nat,
                          all: seq<FileSystemObject>) {
    objects + Walk(e, id, parentId) == all
  }

  lemma PendingStart(e: Entries, id: nat, parentId: nat)
    ensures Pending([], e, id, parentId, Walk(e, id, parentId))
  {
    assert [] + Walk(e, id, parentId) == Walk(e, id, parentId);
  }

  lemma PendingFile(objects: seq<FileSystemObject>, e: Entries, id: nat, parentId: nat, all: seq<FileSystemObject>)
    requires e.File? && Pending(objects, e, id, parentId, all)
    ensures Pending(objects + [FileSystemObject(id, parentId, e.name, e.data, |e.data|, false)], e.rest, id + 1,
                    parentId, all)
  {
  }

  lemma PendingDirectory(objects: seq<FileSystemObject>, e: Entries, id: nat, parentId: nat, all: seq<FileSystemObject>)
    requires e.Directory? && Pending(objects, e, id, parentId, all)
    ensures
      var sub := Walk(e.entries, id + 1, id);
      var count := ChildCount(sub, id);
      Pending(objects + [FileSystemObject(id, parentId, e.name, [], count, true)] + sub, e.rest, id + count + 1,
              parentId, all)
  {
  }

  method GetFileSystemObjects(dir: Entries, startId: nat, parentId: nat) returns (objects: seq<FileSystemObject>)
    ensures objects == Walk(dir, startId, parentId)
    decreases dir
  {
    hide Walk, Pending;
    objects := [];
    var id, entry := startId, dir;
    ghost var all := Walk(dir, startId, parentId);
    PendingStart(dir, startId, parentId);
    while entry != Nil
      invariant entry == dir || entry < dir
      invariant Pending(objects, entry, id, parentId, all)
      decreases entry
    {
      match entry {
        case File(name, data, rest) =>
          PendingFile(objects, entry, id, parentId, all);
          objects := objects + [FileSystemObject(id, parentId, name, data, |data|, false)];
          id, entry := id + 1, rest;
        case Directory(name, entries, rest) =>
          var sub := GetFileSystemObjects(entries, id + 1, id);
          var count := CountChildren(sub, id);
          PendingDirectory(objects, entry, id, parentId, all);
          objects := objects + [FileSystemObject(id, parentId, name, [], count, true)] + sub;
          id, entry := id + count + 1, rest;
      }
    }
    PendingEnd(objects, id, parentId, all);
  }

  lemma PendingEnd(objects: seq<FileSystemObject>, id: nat, parentId: nat, all: seq<FileSystemObject>)
    requires Pending(objects, Nil, id, parentId, all)
    ensures objects == all
  {
  }

  method CountChildren(objects: seq<FileSystemObject>, id: nat) returns (count: nat)
    ensures count == ChildCount(objects, id)
  {
    count := 0;
    for i := 0 to |objects|
      invariant count + ChildCount(objects[i..], id) == ChildCount(objects, id)
    {
      if objects[i].parentId == id {
        count := count + 1;
      }
    }
  }

  // ---- counting ----

  lemma {:induction false} ChildCountAppend(a: seq<FileSystemObject>, b: seq<FileSystemObject>, id: nat)
    ensures ChildCount(a + b, id) == ChildCount(a, id) + ChildCount(b, id)
  {
    if a == [] {
      assert a + b == b;
    } else {
      assert (a + b)[1..] == a[1..] + b;
      ChildCountAppend(a[1..], b, id);
    }
  }

  lemma {:induction false} NoChildren(objects: seq<FileSystemObject>, id: nat)
    requires forall i :: 0 <= i < |objects| ==> objects[i].parentId != id
    ensures ChildCount(objects, id) == 0
  {
    if objects != [] {
      NoChildren(objects[1..], id);
    }
  }

  // ---- what the numbers mean ----

  // Numbers start at `startId`, and a parent is the given one or one of the objects.
  ghost predicate Closed(objects: seq<FileSystemObject>, startId: nat, parentId: nat) {
    && (forall i :: 0 <= i < |objects| ==> objects[i].id >= startId)
    && (forall i :: 0 <= i < |objects| ==>
          objects[i].parentId == parentId || exists k :: 0 <= k < i && objects[k].id == objects[i].parentId)
  }

  lemma ClosedAppend(a: seq<FileSystemObject>, b: seq<FileSystemObject>, startId: nat, later: nat, parentId: nat)
    requires Closed(a, startId, parentId) && Closed(b, later, parentId) && startId <= later
    ensures Closed(a + b, startId, parentId)
  {
    var c := a + b;
    forall i | 0 <= i < |c| && c[i].parentId != parentId
      ensures exists k :: 0 <= k < i && c[k].id == c[i].parentId
    {
      if i < |a| {
        var k :| 0 <= k < i && a[k].id == a[i].parentId;
        assert c[k].id == c[i].parentId;
      } else {
        var k :| 0 <= k < i - |a| && b[k].id == b[i - |a|].parentId;
        assert c[|a| + k].id == c[i].parentId;
      }
    }
  }

  lemma ClosedUnder(d: FileSystemObject, sub: seq<FileSystemObject>, parentId: nat)
    requires d.parentId == parentId && Closed(sub, d.id + 1, d.id)
    ensures Closed([d] + sub, d.id, parentId)
  {
    var c := [d] + sub;
    forall i | 0 < i < |c| ensures exists k :: 0 <= k < i && c[k].id == c[i].parentId {
      if sub[i - 1].parentId == d.id {
        assert c[0].id == c[i].parentId;
      } else {
        var k :| 0 <= k < i - 1 && sub[k].id == sub[i - 1].parentId;
        assert c[k + 1].id == c[i].parentId;
      }
    }
  }

  lemma {:induction false} WalkIsClosed(e: Entries, startId: nat, parentId: nat)
    ensures |Walk(e, startId, parentId)| == Size(e)
    ensures Closed(Walk(e, startId, parentId), startId, parentId)
  {
    hide Closed, Walk, ChildCount;
    match e
    case Nil =>
      WalkEntries(e, startId, parentId);
      ClosedEmpty(startId, parentId);
    case File(name, data, rest) =>
      WalkEntries(e, startId, parentId);
      WalkIsClosed(rest, startId + 1, parentId);
      ClosedEmpty(startId + 1, startId);
      var d := FileSystemObject(startId, parentId, name, data, |data|, false);
      ClosedUnder(d, [], parentId);
      assert [d] + [] == [d];
      ClosedAppend([d], Walk(rest, startId + 1, parentId), startId, startId + 1, parentId);
    case Directory(name, entries, rest) =>
      var sub := Walk(entries, startId + 1, startId);
      var count := ChildCount(sub, startId);
      var d := FileSystemObject(startId, parentId, name, [], count, true);
      WalkDirectory(e, startId, parentId);
      WalkIsClosed(entries, startId + 1, startId);
      ClosedUnder(d, sub, parentId);
      WalkIsClosed(rest, startId + count + 1, parentId);
      ClosedAppend([d] + sub, Walk(rest, startId + count + 1, parentId), startId, startId + count + 1, parentId);
  }

  lemma ClosedEmpty(startId: nat, parentId: nat)
    ensures Closed([], startId, parentId)
  {
  }

  // The size of a directory is the number of its entries, whatever numbers are used below.
  lemma {:induction false} TopCount(e: Entries, startId: nat, parentId: nat)
    requires parentId < startId
    ensures ChildCount(Walk(e, startId, parentId), parentId) == Length(e)
  {
    hide Walk, ChildCount;
    match e
    case Nil =>
      WalkEntries(e, startId, parentId);
      NoChildren([], parentId);
    case File(name, data, rest) =>
      WalkEntries(e, startId, parentId);
      TopCount(rest, startId + 1, parentId);
      ChildCountFirst(FileSystemObject(startId, parentId, name, data, |data|, false),
                      Walk(rest, startId + 1, parentId), parentId);
    case Directory(name, entries, rest) =>
      WalkDirectory(e, startId, parentId);
      var sub := Walk(entries, startId + 1, startId);
      var count := ChildCount(sub, startId);
      var d := FileSystemObject(startId, parentId, name, [], count, true);
      var tail := Walk(rest, startId + count + 1, parentId);
      TopCount(rest, startId + count + 1, parentId);
      assert [d] + sub + tail == [d] + (sub + tail);
      ChildCountFirst(d, sub + tail, parentId);
      ChildCountAppend(sub, tail, parentId);
      WalkIsClosed(entries, startId + 1, startId);
      NoChildren(sub, parentId);
  }

  lemma ChildCountFirst(first: FileSystemObject, rest: seq<FileSystemObject>, id: nat)
    ensures ChildCount([first] + rest, id) == (if first.parentId == id then 1 else 0) + ChildCount(rest, id)
  {
    assert ([first] + rest)[1..] == rest;
  }

  ghost predicate UniqueIds(objects: seq<FileSystemObject>) {
    forall i, k :: 0 <= i < k < |objects| ==> objects[i].id != objects[k].id
  }

  // Every directory in the table has as many entries as its size says, all of them behind it.
  ghost predicate Consistent(objects: seq<FileSystemObject>) {
    forall i :: 0 <= i < |objects| ==> ConsistentAt(objects, i)
  }

  ghost predicate ConsistentAt(objects: seq<FileSystemObject>, i: int) {
    0 <= i < |objects| ==>
      && (objects[i].directory ==> objects[i].fileSize == ChildCount(objects, objects[i].id))
      && forall k :: 0 <= k < |objects| && objects[k].parentId == objects[i].id ==> i < k
  }

  lemma {:induction false} WalkIsConsistent(e: Entries, startId: nat, parentId: nat)
    requires parentId < startId && UniqueIds(Walk(e, startId, parentId))
    ensures Consistent(Walk(e, startId, parentId))
  {
    hide UniqueIds, Consistent, Closed, ChildCount;
    match e
    case Nil =>
      EmptyIsConsistent();
    case File(name, data, rest) =>
      var d := FileSystemObject(startId, parentId, name, data, |data|, false);
      var tail := Walk(rest, startId + 1, parentId);
      EmptyIsConsistent();
      ClosedEmpty(startId + 1, startId);
      WalkIsClosed(rest, startId + 1, parentId);
      assert [d] + [] + tail == [d] + tail;
      UniqueParts([d] + [], tail);
      WalkIsConsistent(rest, startId + 1, parentId);
      ConsistentJoin(d, [], tail, parentId, startId + 1);
    case Directory(name, entries, rest) =>
      var sub := Walk(entries, startId + 1, startId);
      var count := ChildCount(sub, startId);
      var d := FileSystemObject(startId, parentId, name, [], count, true);
      var tail := Walk(rest, startId + count + 1, parentId);
      WalkIsClosed(entries, startId + 1, startId);
      WalkIsClosed(rest, startId + count + 1, parentId);
      UniqueParts([d] + sub, tail);
      UniqueParts([d], sub);
      WalkIsConsistent(entries, startId + 1, startId);
      WalkIsConsistent(rest, startId + count + 1, parentId);
      ConsistentJoin(d, sub, tail, parentId, startId + count + 1);
  }

  lemma EmptyIsConsistent()
    ensures Consistent([])
  {
  }

  lemma UniqueParts(a: seq<FileSystemObject>, b: seq<FileSystemObject>)
    requires UniqueIds(a + b)
    ensures UniqueIds(a) && UniqueIds(b)
    ensures forall i, k :: 0 <= i < |a| && 0 <= k < |b| ==> a[i].id != b[k].id
  {
    var c := a + b;
    forall i, k | 0 <= i < |a| && 0 <= k < |b| ensures a[i].id != b[k].id {
      assert c[i].id != c[|a| + k].id;
    }
    forall i, k | 0 <= i < k < |b| ensures b[i].id != b[k].id {
      assert c[|a| + i].id != c[|a| + k].id;
    }
    forall i, k | 0 <= i < k < |a| ensures a[i].id != a[k].id {
      assert c[i].id != c[k].id;
    }
  }

  // An object, what is in it, and the siblings behind.
  lemma ConsistentJoin(d: FileSystemObject, sub: seq<FileSystemObject>, tail: seq<FileSystemObject>, parentId: nat,
                       later: nat)
    requires parentId < d.id < later && d.parentId == parentId
    requires Closed(sub, d.id + 1, d.id) && Closed(tail, later, parentId)
    requires UniqueIds([d] + sub + tail) && Consistent(sub) && Consistent(tail)
    requires d.directory ==> d.fileSize == ChildCount(sub, d.id)
    requires !d.directory ==> sub == []
    ensures Consistent([d] + sub + tail)
  {
    hide Consistent, Closed, ChildCount, UniqueIds, NotParent;
    UniqueParts([d] + sub, tail);
    UniqueParts([d], sub);
    ConsistentUnder(d, sub);
    ClosedUnder(d, sub, parentId);
    forall i | 0 <= i < |[d] + sub| ensures NotParent(tail, ([d] + sub)[i].id) {
      AtLeast([d] + sub, d.id, parentId, i);
      forall k | 0 <= k < |tail| ensures tail[k].id != ([d] + sub)[i].id {
      }
      ForeignIds(tail, later, parentId, ([d] + sub)[i].id);
    }
    forall i | 0 <= i < |tail| ensures NotParent([d] + sub, tail[i].id) {
      AtLeast(tail, later, parentId, i);
      forall k | 0 <= k < |[d] + sub| ensures ([d] + sub)[k].id != tail[i].id {
      }
      ForeignIds([d] + sub, d.id, parentId, tail[i].id);
    }
    ConsistentAppend([d] + sub, tail);
  }

  lemma AtLeast(objects: seq<FileSystemObject>, startId: nat, parentId: nat, i: nat)
    requires Closed(objects, startId, parentId) && i < |objects|
    ensures objects[i].id >= startId
  {
  }

  // A directory before what is in it.
  lemma ConsistentUnder(d: FileSystemObject, sub: seq<FileSystemObject>)
    requires d.parentId < d.id && Closed(sub, d.id + 1, d.id) && Consistent(sub)
    requires d.directory ==> d.fileSize == ChildCount(sub, d.id)
    ensures Consistent([d] + sub)
  {
    hide ChildCount;
    var c := [d] + sub;
    assert c[1..] == sub;
    forall i | 0 <= i < |c| ensures ConsistentAt(c, i) {
      ChildCountFirst(d, sub, c[i].id);
      assert i > 0 ==> ConsistentAt(sub, i - 1);
    }
  }

  // Two tables that know nothing of each other.
  lemma ConsistentAppend(a: seq<FileSystemObject>, b: seq<FileSystemObject>)
    requires Consistent(a) && Consistent(b)
    requires forall i :: 0 <= i < |a| ==> NotParent(b, a[i].id)
    requires forall i :: 0 <= i < |b| ==> NotParent(a, b[i].id)
    ensures Consistent(a + b)
  {
    hide ChildCount;
    var c := a + b;
    forall i | 0 <= i < |c| ensures ConsistentAt(c, i) {
      ChildCountAppend(a, b, c[i].id);
      if i < |a| {
        NoChildren(b, a[i].id);
        assert ConsistentAt(a, i);
      } else {
        NoChildren(a, b[i - |a|].id);
        assert ConsistentAt(b, i - |a|);
      }
    }
  }

  // Nobody in a closed table has a parent that is neither the given one nor in the table.
  lemma ForeignIds(objects: seq<FileSystemObject>, startId: nat, parentId: nat, id: nat)
    requires Closed(objects, startId, parentId) && id != parentId
    requires forall k :: 0 <= k < |objects| ==> objects[k].id != id
    ensures ChildCount(objects, id) == 0 && NotParent(objects, id)
  {
    NoChildren(objects, id);
  }

  // Object `id` is nobody's parent here.
  ghost predicate NotParent(objects: seq<FileSystemObject>, id: nat) {
    forall k :: 0 <= k < |objects| ==> objects[k].parentId != id
  }

  // ---- when the numbers are unique ----

  // Only the last entry of a listing may be a directory that holds directories that are not empty.
  predicate Numbered(e: Entries) {
    match e
    case Nil => true
    case File(_, _, rest) => Numbered(rest)
    case Directory(_, entries, rest) =>
      Numbered(entries) && Numbered(rest) && (rest == Nil || Size(entries) == Length(entries))
  }

  // Then the objects are numbered one after the other.
  lemma {:induction false} NumberedInOrder(e: Entries, startId: nat, parentId: nat)
    requires Numbered(e) && parentId < startId
    ensures |Walk(e, startId, parentId)| == Size(e) && InOrder(Walk(e, startId, parentId), startId)
  {
    hide InOrder, Walk, ChildCount;
    match e
    case Nil =>
      WalkEntries(e, startId, parentId);
      InOrderJoin([], [], startId);
    case File(name, data, rest) =>
      WalkEntries(e, startId, parentId);
      NumberedInOrder(rest, startId + 1, parentId);
      InOrderJoin([FileSystemObject(startId, parentId, name, data, |data|, false)], Walk(rest, startId + 1, parentId),
                  startId);
    case Directory(name, entries, rest) =>
      WalkDirectory(e, startId, parentId);
      NumberedInOrder(entries, startId + 1, startId);
      TopCount(entries, startId + 1, startId);
      NumberedInOrder(rest, startId + Length(entries) + 1, parentId);
      var sub := Walk(entries, startId + 1, startId);
      var d := FileSystemObject(startId, parentId, name, [], Length(entries), true);
      InOrderJoin([d], sub, startId);
      InOrderJoin([d] + sub, Walk(rest, startId + Length(entries) + 1, parentId), startId);
  }

  lemma WalkEntries(e: Entries, startId: nat, parentId: nat)
    requires !e.Directory?
    ensures e == Nil ==> Walk(e, startId, parentId) == []
    ensures e.File? ==>
      Walk(e, startId, parentId)
        == [FileSystemObject(startId, parentId, e.name, e.data, |e.data|, false)] + Walk(e.rest, startId + 1, parentId)
  {
  }

  ghost predicate InOrder(objects: seq<FileSystemObject>, startId: nat) {
    forall i :: 0 <= i < |objects| ==> objects[i].id == startId + i
  }

  lemma InOrderJoin(a: seq<FileSystemObject>, b: seq<FileSystemObject>, startId: nat)
    ensures |a| == 1 && a[0].id == startId ==> InOrder(a, startId)
    ensures (InOrder(a, startId) || (|a| == 1 && a[0].id == startId)) && (b == [] || InOrder(b, startId + |a|)) ==>
      InOrder(a + b, startId)
    ensures InOrder([], startId)
  {
  }

  lemma InOrderIsUnique(objects: seq<FileSystemObject>, startId: nat)
    requires InOrder(objects, startId)
    ensures UniqueIds(objects)
  {
  }

  // No two objects share a number exactly for such trees.
  lemma {:induction false} UniqueIdsIff(e: Entries, startId: nat, parentId: nat)
    requires parentId < startId
    ensures UniqueIds(Walk(e, startId, parentId)) <==> Numbered(e)
  {
    if Numbered(e) {
      NumberedInOrder(e, startId, parentId);
      InOrderIsUnique(Walk(e, startId, parentId), startId);
    } else {
      match e
      case File(name, data, rest) =>
        UniqueIdsIff(rest, startId + 1, parentId);
        if UniqueIds(Walk(e, startId, parentId)) {
          UniqueParts([FileSystemObject(startId, parentId, name, data, |data|, false)],
                      Walk(rest, startId + 1, parentId));
        }
      case Directory(name, entries, rest) =>
        NotNumberedDirectory(e, startId, parentId);
    }
  }

  lemma {:induction false} NotNumberedDirectory(e: Entries, startId: nat, parentId: nat)
    requires e.Directory? && !Numbered(e) && parentId < startId
    ensures !UniqueIds(Walk(e, startId, parentId))
    decreases e, 0
  {
    hide UniqueIds, Walk, Size, Length;
    var sub := Walk(e.entries, startId + 1, startId);
    var count := ChildCount(sub, startId);
    var d := FileSystemObject(startId, parentId, e.name, [], count, true);
    var tail := Walk(e.rest, startId + count + 1, parentId);
    NotNumbered(e);
    WalkDirectory(e, startId, parentId);
    NotUnique([d] + sub, tail);
    NotUnique([d], sub);
    if !Numbered(e.entries) {
      UniqueIdsIff(e.entries, startId + 1, startId);
    } else if !Numbered(e.rest) {
      UniqueIdsIff(e.rest, startId + count + 1, parentId);
    } else {
      TopCount(e.entries, startId + 1, startId);
      NumberedInOrder(e.entries, startId + 1, startId);
      LengthAtMostSize(e.entries);
      FirstId(e.rest, startId + count + 1, parentId);
      SharedId(d, sub, tail, count);
    }
  }

  lemma NotNumbered(e: Entries)
    requires e.Directory? && !Numbered(e)
    ensures Numbered(e.entries) && Numbered(e.rest) ==> e.rest != Nil && Size(e.entries) != Length(e.entries)
  {
  }

  lemma WalkDirectory(e: Entries, startId: nat, parentId: nat)
    requires e.Directory?
    ensures
      var sub := Walk(e.entries, startId + 1, startId);
      var count := ChildCount(sub, startId);
      Walk(e, startId, parentId)
        == [FileSystemObject(startId, parentId, e.name, [], count, true)] + sub
           + Walk(e.rest, startId + count + 1, parentId)
  {
  }

  lemma FirstId(e: Entries, startId: nat, parentId: nat)
    requires e != Nil
    ensures Walk(e, startId, parentId) != [] && Walk(e, startId, parentId)[0].id == startId
  {
  }

  lemma NotUnique(a: seq<FileSystemObject>, b: seq<FileSystemObject>)
    ensures !UniqueIds(a) || !UniqueIds(b) ==> !UniqueIds(a + b)
  {
    if UniqueIds(a + b) {
      UniqueParts(a, b);
    }
  }

  lemma SharedId(d: FileSystemObject, sub: seq<FileSystemObject>, tail: seq<FileSystemObject>, i: nat)
    requires i < |sub| && tail != [] && sub[i].id == tail[0].id
    ensures !UniqueIds([d] + sub + tail)
  {
    var c := [d] + sub + tail;
    assert c[1 + i] == sub[i] && c[1 + |sub|] == tail[0];
  }

  lemma LengthAtMostSize(e: Entries)
    ensures Length(e) <= Size(e)
  {
  }
}
