/** Directory iteration and name lookup: `DirectoryEntry::new`,
    `Inode::dir_entries` and `Inode::find_entry_name` in src/main.rs.

    A directory's data view is walked record by record: each
    `ext4_dir_entry_2` record is decoded at the current cursor and the cursor
    advances by the record's `rec_len` until it reaches the view's declared
    size.  A record with `rec_len == 0` would make the original loop forever;
    here it is the error `ZeroRecordLength`.
 */
module Directory {
  import opened Fallible
  import opened Reader
  import opened Geometry
  import opened Inodes

  /** `DirectoryEntry`: the record length, the inode number and the raw name bytes. */
  datatype DirectoryEntry = DirectoryEntry(len: nat, inode: nat, name: seq<uint8>)

  /** `DirectoryEntry::new`: the name length byte at 0x6 is read first, then
      the inode number at 0x0, the record length at 0x4 and the name at 0x8. */
  function DirectoryEntryNew(s: seq<uint8>): (r: Result<DirectoryEntry>)
    ensures r.Ok? <==> |s| > 6 && (s[6] == 0 || 8 + s[6] <= |s|)
    ensures r.Ok? ==> && r.value.inode == U32(s, 0x0).value
                      && r.value.len == U16(s, 0x4).value
                      && r.value.name == (if s[6] == 0 then [] else s[8..8 + s[6]])
  {
    match U8(s, 0x6)
    case Err(e) => Err(e)
    case Ok(nameLen) =>
      // The inode number and record length end before 0x7, so they are in
      // range once the name length has been read.
      var inode := U32(s, 0x0).value;
      var len := U16(s, 0x4).value;
      match Vec(s, 0x8, nameLen)
      case Err(e) => Err(e)
      case Ok(name) => Ok(DirectoryEntry(len, inode, name))
  }

  /** The record decoded at `cursor` of a directory's data: a view that
      starts at the cursor and runs to the end of the data. */
  function EntryAt(data: seq<uint8>, cursor: nat): Result<DirectoryEntry>
  {
    DirectoryEntryNew(Window(data, Slice(cursor, None)))
  }

  /** The walk over a directory's records, given the decoder `at` that reads
      the record at a cursor, from `cursor` up to the declared size `total`:
      the record at the cursor, then the records from the cursor plus its
      record length.  The walk does not depend on how records are laid out,
      so its properties are proved for every decoder. */
  function Walk(at: nat -> Result<DirectoryEntry>, total: nat, cursor: nat): (r: Result<seq<DirectoryEntry>>)
    ensures r.Ok? && cursor < total ==> 1 <= |r.value| <= total - cursor
    decreases total - cursor
  {
    if cursor >= total then Ok([])
    else match at(cursor)
      case Err(e) => Err(e)
      case Ok(entry) =>
        if entry.len == 0 then Err(ZeroRecordLength(cursor))
        else match Walk(at, total, cursor + entry.len)
          case Err(e) => Err(e)
          case Ok(rest) => Ok([entry] + rest)
  }

  /** The entries of a directory whose data is `data` and whose declared
      size is `total`, decoded from `cursor` on. */
  function Entries(data: seq<uint8>, total: nat, cursor: nat): Result<seq<DirectoryEntry>>
  {
    Walk(Decoder(data), total, cursor)
  }

  /** The record decoder of a directory's data, as a value. */
  function Decoder(data: seq<uint8>): nat -> Result<DirectoryEntry>
  {
    (c: nat) => EntryAt(data, c)
  }

  /** One step of the walk: below the declared size, a successful walk
      starts with the record at the cursor, which has a non-zero length,
      followed by the walk from the next cursor. */
  lemma WalkTail(at: nat -> Result<DirectoryEntry>, total: nat, cursor: nat)
    requires cursor < total && Walk(at, total, cursor).Ok?
    ensures var es := Walk(at, total, cursor).value;
            && |es| >= 1 && at(cursor) == Ok(es[0]) && es[0].len > 0
            && Walk(at, total, cursor + es[0].len) == Ok(es[1..])
  {
  }

  /** The sum of the record lengths of `es`. */
  function SumLens(es: seq<DirectoryEntry>): nat
  {
    if es == [] then 0 else es[0].len + SumLens(es[1..])
  }

  lemma {:induction false} SumLensAppend(es: seq<DirectoryEntry>, i: nat)
    requires i < |es|
    ensures SumLens(es[..i + 1]) == SumLens(es[..i]) + es[i].len
  {
    if i > 0 {
      SumLensAppend(es[1..], i - 1);
      assert es[1..][..i] == es[..i + 1][1..];
      assert es[1..][..i - 1] == es[..i][1..];
    }
  }

  /** Pushing an entry adds its record length to the sum. */
  lemma SumLensPush(es: seq<DirectoryEntry>, e: DirectoryEntry)
    ensures SumLens(es + [e]) == SumLens(es) + e.len
  {
    SumLensAppend(es + [e], |es|);
    assert (es + [e])[..|es| + 1] == es + [e];
    assert (es + [e])[..|es|] == es;
  }

  /** Where the `i`-th entry decoded from `cursor` starts: `cursor` plus the
      record lengths of the entries before it. */
  function EntryCursor(cursor: nat, es: seq<DirectoryEntry>, i: nat): nat
    requires i <= |es|
  {
    cursor + SumLens(es[..i])
  }

  /** The cursor of entry `i` is the cursor of entry `i - 1` of the
      entries after the first, counted from after the first record. */
  lemma CursorShift(cursor: nat, es: seq<DirectoryEntry>, i: nat)
    requires 0 < i <= |es|
    ensures EntryCursor(cursor, es, i) == EntryCursor(cursor + es[0].len, es[1..], i - 1)
  {
    assert es[..i][1..] == es[1..][..i - 1];
  }

  /** Every entry of a successful walk has a non-zero record length, is the
      record decoded at its cursor, and that cursor is still inside the
      declared size: records are read at `cursor`, `cursor + len0`,
      `cursor + len0 + len1`, ... */
  lemma {:induction false} WalkAtCursors(at: nat -> Result<DirectoryEntry>, total: nat, cursor: nat, i: nat)
    requires Walk(at, total, cursor).Ok?
    requires i < |Walk(at, total, cursor).value|
    ensures var es := Walk(at, total, cursor).value;
            && es[i].len > 0
            && EntryCursor(cursor, es, i) < total
            && at(EntryCursor(cursor, es, i)) == Ok(es[i])
    decreases total - cursor
  {
    var es := Walk(at, total, cursor).value;
    assert cursor < total;
    WalkTail(at, total, cursor);
    if i == 0 {
      assert es[..0] == [];
    } else {
      WalkAtCursors(at, total, cursor + es[0].len, i - 1);
      CursorShift(cursor, es, i);
    }
  }

  /** The walk stops at the first cursor at or past the declared size: the
      record lengths of all entries reach `total`. */
  lemma {:induction false} WalkReachesEnd(at: nat -> Result<DirectoryEntry>, total: nat, cursor: nat)
    requires Walk(at, total, cursor).Ok?
    ensures cursor + SumLens(Walk(at, total, cursor).value) >= total
    decreases total - cursor
  {
    if cursor < total {
      var es := Walk(at, total, cursor).value;
      WalkTail(at, total, cursor);
      WalkReachesEnd(at, total, cursor + es[0].len);
    }
  }

  /** Cursors strictly increase from one entry to the next. */
  lemma CursorsIncrease(at: nat -> Result<DirectoryEntry>, total: nat, cursor: nat, i: nat)
    requires Walk(at, total, cursor).Ok?
    requires i + 1 < |Walk(at, total, cursor).value|
    ensures var es := Walk(at, total, cursor).value;
            EntryCursor(cursor, es, i) < EntryCursor(cursor, es, i + 1)
  {
    var es := Walk(at, total, cursor).value;
    SumLensAppend(es, i);
    WalkAtCursors(at, total, cursor, i);
  }

  /** The walk of a directory's data, restated on its bytes: entry `i` is
      `DirectoryEntry::new` of the view starting at its cursor, every cursor
      is below the declared size, and the lengths of all entries reach it. */
  lemma EntriesLayout(data: seq<uint8>, total: nat, i: nat)
    requires Entries(data, total, 0).Ok? && i < |Entries(data, total, 0).value|
    ensures var es := Entries(data, total, 0).value;
            && EntryCursor(0, es, i) < total <= SumLens(es)
            && DirectoryEntryNew(Window(data, Slice(EntryCursor(0, es, i), None))) == Ok(es[i])
  {
    var at := Decoder(data);
    WalkAtCursors(at, total, 0, i);
    WalkReachesEnd(at, total, 0);
  }

  /** `es` are records the decoder `at` finds one after another from
      `cursor`: each one starts below the declared size, at the cursor plus
      the lengths of the records before it, and has a non-zero length. */
  predicate RecordsAt(at: nat -> Result<DirectoryEntry>, total: nat, cursor: nat, es: seq<DirectoryEntry>)
  {
    forall i :: 0 <= i < |es| ==>
      && EntryCursor(cursor, es, i) < total
      && es[i].len > 0
      && at(EntryCursor(cursor, es, i)) == Ok(es[i])
  }

  /** Conversely, records packed one after another whose lengths reach the
      declared size are exactly what the walk yields. */
  lemma {:induction false} WalkComplete(at: nat -> Result<DirectoryEntry>, total: nat, cursor: nat, es: seq<DirectoryEntry>)
    requires RecordsAt(at, total, cursor, es)
    requires cursor + SumLens(es) >= total
    ensures Walk(at, total, cursor) == Ok(es)
    decreases |es|
  {
    if es != [] {
      assert es[..0] == [];
      assert EntryCursor(cursor, es, 0) == cursor;
      var next := cursor + es[0].len;
      var rest := es[1..];
      forall i | 0 <= i < |rest|
        ensures && EntryCursor(next, rest, i) < total
                && rest[i].len > 0
                && at(EntryCursor(next, rest, i)) == Ok(rest[i])
      {
        CursorShift(cursor, es, i + 1);
      }
      WalkComplete(at, total, next, rest);
      assert [es[0]] + rest == es;
    }
  }

  /** The walk of a directory's data accepts every well-formed directory:
      entries that `DirectoryEntry::new` decodes at consecutive cursors below
      the size, with non-zero lengths reaching the size, are its result.
      With `EntriesLayout` this characterises the walk's successful results. */
  lemma EntriesComplete(data: seq<uint8>, total: nat, es: seq<DirectoryEntry>)
    requires forall i :: 0 <= i < |es| ==>
               && EntryCursor(0, es, i) < total
               && es[i].len > 0
               && DirectoryEntryNew(Window(data, Slice(EntryCursor(0, es, i), None))) == Ok(es[i])
    requires SumLens(es) >= total
    ensures Entries(data, total, 0) == Ok(es)
  {
    WalkComplete(Decoder(data), total, 0, es);
  }

  /** `Inode::dir_entries` as a value: the entries of the inode's data view,
      iterated up to the view's declared size. */
  function DirEntriesOf(inode: Inode, sb: SuperBlock, dev: seq<uint8>): Result<seq<DirectoryEntry>>
  {
    var data :- Data(inode, sb);
    Entries(Window(dev, data), data.size.value, 0)
  }

  function Prepend(prefix: seq<DirectoryEntry>, r: Result<seq<DirectoryEntry>>): Result<seq<DirectoryEntry>>
  {
    if r.Ok? then Ok(prefix + r.value) else r
  }

  lemma PrependAppend(a: seq<DirectoryEntry>, b: seq<DirectoryEntry>, r: Result<seq<DirectoryEntry>>)
    ensures Prepend(a, Prepend(b, r)) == Prepend(a + b, r)
  {
    if r.Ok? {
      assert a + (b + r.value) == (a + b) + r.value;
    }
  }

  /** Below the declared size, the walk from `cursor` is the record at
      `cursor` followed by the walk from the next cursor, or the error that
      decoding it raises. */
  lemma WalkUnfold(at: nat -> Result<DirectoryEntry>, total: nat, cursor: nat)
    requires cursor < total
    ensures var e := at(cursor);
            Walk(at, total, cursor) ==
              if e.Err? then Err(e.error)
              else if e.value.len == 0 then Err(ZeroRecordLength(cursor))
              else Prepend([e.value], Walk(at, total, cursor + e.value.len))
  {
  }

  /** Consuming the record at `offset` keeps the loop's invariant: the
      entries pushed so far, then the walk from the cursor. */
  lemma WalkPush(at: nat -> Result<DirectoryEntry>, total: nat, entries: seq<DirectoryEntry>, offset: nat)
    requires offset < total && at(offset).Ok? && at(offset).value.len > 0
    requires Walk(at, total, 0) == Prepend(entries, Walk(at, total, offset))
    ensures var e := at(offset).value;
            Walk(at, total, 0) == Prepend(entries + [e], Walk(at, total, offset + e.len))
  {
    var e := at(offset).value;
    WalkUnfold(at, total, offset);
    PrependAppend(entries, [e], Walk(at, total, offset + e.len));
  }

  /** The loop's exits: a record that fails to decode, or that has a zero
      length, is the result of the whole walk; and at or past the declared
      size the entries pushed so far are the whole walk. */
  lemma WalkExits(at: nat -> Result<DirectoryEntry>, total: nat, entries: seq<DirectoryEntry>, offset: nat)
    requires Walk(at, total, 0) == Prepend(entries, Walk(at, total, offset))
    ensures offset < total && at(offset).Err? ==> Walk(at, total, 0) == Err(at(offset).error)
    ensures offset < total && at(offset).Ok? && at(offset).value.len == 0 ==>
              Walk(at, total, 0) == Err(ZeroRecordLength(offset))
    ensures offset >= total ==> Walk(at, total, 0) == Ok(entries)
  {
    if offset < total {
      WalkUnfold(at, total, offset);
    } else {
      assert entries + [] == entries;
    }
  }

  /** The loop of `Inode::dir_entries`: starting at cursor 0, decode the
      record at the cursor with `at`, push it and advance the cursor by its
      record length, until the cursor reaches `total`.  The cursor is always
      the sum of the record lengths pushed so far. */
  method WalkEntries(at: nat -> Result<DirectoryEntry>, total: nat) returns (r: Result<seq<DirectoryEntry>>)
    ensures r == Walk(at, total, 0)
  {
    var entries: seq<DirectoryEntry> := [];
    var offset: nat := 0;
    assert Prepend([], Walk(at, total, 0)) == Walk(at, total, 0) by {
      if Walk(at, total, 0).Ok? {
        assert [] + Walk(at, total, 0).value == Walk(at, total, 0).value;
      }
    }
    while offset < total
      invariant Walk(at, total, 0) == Prepend(entries, Walk(at, total, offset))
      invariant offset == SumLens(entries)
      decreases total - offset
    {
      var entry := at(offset);
      WalkExits(at, total, entries, offset);
      if entry.Err? {
        return Err(entry.error);
      }
      if entry.value.len == 0 {
        return Err(ZeroRecordLength(offset));
      }
      WalkPush(at, total, entries, offset);
      SumLensPush(entries, entry.value);
      offset := offset + entry.value.len;
      entries := entries + [entry.value];
    }
    WalkExits(at, total, entries, offset);
    return Ok(entries);
  }

  /** `Inode::dir_entries`: resolve the inode's data view and walk it up to
      its declared size. */
  method DirEntries(inode: Inode, sb: SuperBlock, dev: seq<uint8>) returns (r: Result<seq<DirectoryEntry>>)
    ensures r == DirEntriesOf(inode, sb, dev)
  {
    var data := Data(inode, sb);
    if data.Err? {
      return Err(data.error);
    }
    r := WalkEntries(Decoder(Window(dev, data.value)), data.value.size.value);
  }

  /** The inode of the first entry, in on-disk order, whose name is `name`;
      `None` exactly when no entry has that name. */
  function FindName(entries: seq<DirectoryEntry>, name: seq<uint8>): (r: Option<nat>)
    ensures r.None? <==> forall i :: 0 <= i < |entries| ==> entries[i].name != name
    ensures r.Some? ==> exists i :: && 0 <= i < |entries|
                                    && entries[i].name == name && entries[i].inode == r.value
                                    && forall j :: 0 <= j < i ==> entries[j].name != name
  {
    if entries == [] then None
    else if entries[0].name == name then Some(entries[0].inode)
    else
      var r := FindName(entries[1..], name);
      assert forall i :: 1 <= i < |entries| ==> entries[i] == entries[1..][i - 1];
      r
  }

  /** `Inode::find_entry_name`: decode the directory's entries and return
      the inode of the first one named `name`. */
  method FindEntryName(inode: Inode, sb: SuperBlock, dev: seq<uint8>, name: seq<uint8>)
    returns (r: Result<Option<nat>>)
    ensures DirEntriesOf(inode, sb, dev).Err? ==> r == Err(DirEntriesOf(inode, sb, dev).error)
    ensures DirEntriesOf(inode, sb, dev).Ok? ==> r.Ok? && r.value == FindName(DirEntriesOf(inode, sb, dev).value, name)
  {
    var entries := DirEntries(inode, sb, dev);
    if entries.Err? {
      return Err(entries.error);
    }
    return Ok(FindName(entries.value, name));
  }
}
