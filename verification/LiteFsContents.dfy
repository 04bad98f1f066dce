/** Whatever is in the host's directory tree is on its partition, under the same path. */
module LiteFsContents {
  import opened Options
  import opened Strings
  import opened LiteFsFormat
  import opened LiteFsWriter
  import opened LiteFsTree
  import opened LiteFsReader
  import opened LiteFsRoundTrip
  import opened LiteFsPaths

  // The path `names` from the listing `e` leads to the entry that `node` begins with.
  ghost predicate IsAt(e: Entries, names: seq<string>, node: Entries) {
    match e
    case Nil => false
    case File(name, _, rest) => (names == [name] && node == e) || IsAt(rest, names, node)
    case Directory(name, entries, rest) =>
      || (names == [name] && node == e)
      || (|names| > 1 && names[0] == name && IsAt(entries, names[1..], node))
      || IsAt(rest, names, node)
  }

  // The object has what is known of that entry: a file's data, or the number of a directory's entries.
  ghost predicate StandsFor(o: FileSystemObject, node: Entries) {
    match node
    case Nil => false
    case File(name, data, _) => o.name == name && !o.directory && o.data == data && o.fileSize == |data|
    case Directory(name, entries, _) => o.name == name && o.directory && o.fileSize == Length(entries)
  }

  // A chain of objects of these names, from the directory `parentId` on, ends at the entry.
  ghost predicate Leads(objects: seq<FileSystemObject>, chain: seq<nat>, parentId: nat, names: seq<string>,
                        node: Entries)
  {
    && chain != [] && |chain| == |names|
    && (forall i :: 0 <= i < |chain| ==> chain[i] < |objects| && objects[chain[i]].name == names[i])
    && objects[chain[0]].parentId == parentId
    && (forall i :: 0 < i < |chain| ==> objects[chain[i]].parentId == objects[chain[i - 1]].id)
    && StandsFor(objects[chain[|chain| - 1]], node)
  }

  // A table that has others around it leads where it led.
  lemma LeadsWithin(before: seq<FileSystemObject>, part: seq<FileSystemObject>, after: seq<FileSystemObject>,
                    chain: seq<nat>, parentId: nat, names: seq<string>, node: Entries)
    returns (longer: seq<nat>)
    requires Leads(part, chain, parentId, names, node)
    ensures Leads(before + part + after, longer, parentId, names, node)
  {
    hide StandsFor;
    var objects := before + part + after;
    longer := seq(|chain|, i requires 0 <= i < |chain| => |before| + chain[i]);
    forall i | 0 <= i < |chain| ensures objects[longer[i]] == part[chain[i]] {
    }
  }

  // A chain that starts in a directory goes on from the directory's own place.
  lemma LeadsFrom(objects: seq<FileSystemObject>, k: nat, chain: seq<nat>, names: seq<string>, node: Entries)
    requires k < |objects| && Leads(objects, chain, objects[k].id, names, node)
    ensures Leads(objects, [k] + chain, objects[k].parentId, [objects[k].name] + names, node)
  {
    hide StandsFor;
    var longer := [k] + chain;
    assert longer[|longer| - 1] == chain[|chain| - 1];
    forall i | 0 < i < |longer| ensures objects[longer[i]].parentId == objects[longer[i - 1]].id {
      assert longer[i] == chain[i - 1];
    }
  }

  lemma LeadsUnder(d: FileSystemObject, sub: seq<FileSystemObject>, after: seq<FileSystemObject>, chain: seq<nat>,
                   names: seq<string>, node: Entries)
    returns (longer: seq<nat>)
    requires Leads(sub, chain, d.id, names, node)
    ensures Leads([d] + sub + after, longer, d.parentId, [d.name] + names, node)
  {
    hide Leads;
    longer := LeadsWithin([d], sub, after, chain, d.id, names, node);
    LeadsFrom([d] + sub + after, 0, longer, names, node);
    longer := [0] + longer;
  }

  lemma LeadsToFirst(d: FileSystemObject, after: seq<FileSystemObject>, node: Entries)
    requires StandsFor(d, node)
    ensures Leads([d] + after, [0], d.parentId, [d.name], node)
  {
  }

  // Nothing of the tree is left out: every entry has its own chain of objects, of the same names.
  lemma {:induction false} EntryHasChain(e: Entries, startId: nat, parentId: nat, names: seq<string>, node: Entries)
    returns (chain: seq<nat>)
    requires IsAt(e, names, node) && parentId < startId
    ensures Leads(Walk(e, startId, parentId), chain, parentId, names, node)
    decreases e
  {
    hide Leads, Walk, ChildCount;
    match e
    case File(name, data, rest) =>
      var d, tail := FileSystemObject(startId, parentId, name, data, |data|, false), Walk(rest, startId + 1, parentId);
      WalkEntries(e, startId, parentId);
      if names == [name] && node == e {
        LeadsToFirst(d, tail, node);
        chain := [0];
      } else {
        chain := EntryHasChain(rest, startId + 1, parentId, names, node);
        assert [d] + tail + [] == [d] + tail;
        chain := LeadsWithin([d], tail, [], chain, parentId, names, node);
      }
    case Directory(name, entries, rest) =>
      var sub := Walk(entries, startId + 1, startId);
      var count := ChildCount(sub, startId);
      var d := FileSystemObject(startId, parentId, name, [], count, true);
      var tail := Walk(rest, startId + count + 1, parentId);
      WalkDirectory(e, startId, parentId);
      if names == [name] && node == e {
        TopCount(entries, startId + 1, startId);
        LeadsToFirst(d, sub + tail, node);
        assert [d] + sub + tail == [d] + (sub + tail);
        chain := [0];
      } else if |names| > 1 && names[0] == name && IsAt(entries, names[1..], node) {
        chain := EntryHasChain(entries, startId + 1, startId, names[1..], node);
        chain := LeadsUnder(d, sub, tail, chain, names[1..], node);
        assert [name] + names[1..] == names;
      } else {
        chain := EntryHasChain(rest, startId + count + 1, parentId, names, node);
        assert ([d] + sub) + tail + [] == [d] + sub + tail;
        chain := LeadsWithin([d] + sub, tail, [], chain, parentId, names, node);
      }
  }

  // And every object stands for an entry of the tree.
  lemma {:induction false} ObjectIsEntry(e: Entries, startId: nat, parentId: nat, k: nat)
    returns (names: seq<string>, node: Entries)
    requires k < |Walk(e, startId, parentId)| && parentId < startId
    ensures IsAt(e, names, node) && StandsFor(Walk(e, startId, parentId)[k], node)
    decreases e
  {
    hide Walk, ChildCount;
    match e
    case Nil =>
      WalkEntries(e, startId, parentId);
      assert false;
    case File(name, data, rest) =>
      WalkEntries(e, startId, parentId);
      if k == 0 {
        names, node := [name], e;
      } else {
        names, node := ObjectIsEntry(rest, startId + 1, parentId, k - 1);
      }
    case Directory(name, entries, rest) =>
      var sub := Walk(entries, startId + 1, startId);
      var count := ChildCount(sub, startId);
      WalkDirectory(e, startId, parentId);
      TopCount(entries, startId + 1, startId);
      if k == 0 {
        names, node := [name], e;
      } else if k <= |sub| {
        names, node := ObjectIsEntry(entries, startId + 1, startId, k - 1);
        EntryHasName(entries, names, node);
        names := [name] + names;
        assert names[1..] == names[1..];
      } else {
        names, node := ObjectIsEntry(rest, startId + count + 1, parentId, k - 1 - |sub|);
      }
  }

  lemma {:induction false} EntryHasName(e: Entries, names: seq<string>, node: Entries)
    requires IsAt(e, names, node)
    ensures names != []
  {
    match e
    case File(_, _, rest) =>
      if IsAt(rest, names, node) {
        EntryHasName(rest, names, node);
      }
    case Directory(_, _, rest) =>
      if IsAt(rest, names, node) {
        EntryHasName(rest, names, node);
      }
  }

  lemma LeadsIsChain(objects: seq<FileSystemObject>, chain: seq<nat>, names: seq<string>, node: Entries)
    requires Leads(objects, chain, 0, names, node)
    ensures IsChain(objects, chain) && NamesIn(objects, chain) == names
  {
    forall i | 0 < i < |chain| ensures LinkedTo(objects, chain, i) {
    }
  }

  // From the host's tree to the bytes of a file: where no name passes for an earlier one, reading a
  // file of the tree by its path, from a chunk boundary on, delivers its data.
  method ReadTreeFile(disk: Disk, i: nat, name: string, ghost e: Entries, ghost attributes: nat,
                      ghost image: seq<Sector>, names: seq<string>, ghost node: Entries, offset: nat, bytesCount: nat)
    returns (ok: bool, buffer: seq<Byte>)
    requires Mounted(disk, i, name, Walk(e, 1, 0), attributes, image)
    requires IsAt(e, names, node) && node.File? && AreNames([name] + names, '/')
    requires GetFsHeader(disk).Some? && FindPartition(disk, GetFsHeader(disk).value, name, 0) == Some(i)
    requires forall k :: 0 <= k < |Walk(e, 1, 0)| ==> NoLookalike(Walk(e, 1, 0), k)
    requires offset % 504 == 0 && offset <= |node.data| && offset < 0x1_0000_0000 && IsU64(offset + bytesCount)
    ensures ok
    ensures
      var n := if bytesCount == 0 || offset + bytesCount > |node.data| then |node.data| - offset else bytesCount;
      |buffer| == (n + 503) / 504 * 504 && buffer[..n] == node.data[offset..offset + n]
  {
    hide Mounted, AreNames, FindPartition, Locate, NamesOf, NoLookalike, Walk, IsAt, Join, Delivers, GetFsHeader;
    FaithfulWhenMounted(disk, i, name, Walk(e, 1, 0), attributes, image);
    ok, buffer := ReadFile(disk, Join([name] + names, '/'), offset, bytesCount);
    TreeFileDelivered(disk, i, name, e, attributes, image, names, node, offset, bytesCount, ok, buffer);
  }

  lemma TreeFileDelivered(disk: Disk, i: nat, name: string, e: Entries, attributes: nat, image: seq<Sector>,
                          names: seq<string>, node: Entries, offset: nat, bytesCount: nat, ok: bool, buffer: seq<Byte>)
    requires Mounted(disk, i, name, Walk(e, 1, 0), attributes, image)
    requires IsAt(e, names, node) && node.File? && AreNames([name] + names, '/')
    requires GetFsHeader(disk).Some? && FindPartition(disk, GetFsHeader(disk).value, name, 0) == Some(i)
    requires forall k :: 0 <= k < |Walk(e, 1, 0)| ==> NoLookalike(Walk(e, 1, 0), k)
    requires offset % 504 == 0 && offset <= |node.data| && offset < 0x1_0000_0000 && IsU64(offset + bytesCount)
    requires disk.Faithful()
    requires Delivers(disk, Locate(disk, NamesOf(Join([name] + names, '/')), false), offset, bytesCount, ok, buffer)
    ensures ok
    ensures
      var n := if bytesCount == 0 || offset + bytesCount > |node.data| then |node.data| - offset else bytesCount;
      |buffer| == (n + 503) / 504 * 504 && buffer[..n] == node.data[offset..offset + n]
  {
    hide Mounted, AreNames, FindPartition, Locate, FileBytes, NamesOf, IsChain, NoLookalike, Walk, IsAt, Leads, Join,
      Disk.Faithful, GetFsHeader, DescriptorFor, ReadDescriptor;
    var objects := Walk(e, 1, 0);
    var chain := EntryHasChain(e, 1, 0, names, node);
    LeadsToFile(objects, chain, names, node);
    LeadsIsChain(objects, chain, names, node);
    FaithfulWhenMounted(disk, i, name, objects, attributes, image);
    PathResolves(disk, i, name, objects, attributes, image, chain);
    FileRoundTrip(disk, i, name, objects, attributes, image, chain[|chain| - 1], offset, bytesCount);
  }

  lemma LeadsToFile(objects: seq<FileSystemObject>, chain: seq<nat>, names: seq<string>, node: Entries)
    requires Leads(objects, chain, 0, names, node) && node.File?
    ensures chain != [] && (forall i :: 0 <= i < |chain| ==> chain[i] < |objects|)
    ensures
      var o := objects[chain[|chain| - 1]];
      !o.directory && o.data == node.data
  {
  }
}
