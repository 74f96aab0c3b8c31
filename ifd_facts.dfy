/** What an IFD walk leaves in the tag map: every entry's name, each with
    the record of the last entry that carried it, and everything else as
    it was. */
module IfdFacts {
  import opened Wrappers
  import opened ExifTypes
  import opened TagValues
  import opened TagNames
  import opened ByteView
  import opened ExifDecode

  /** The record the map keeps for a tag. */
  function Record(t: Tag): Tagged {
    Tagged(t.value, t.description)
  }

  /** Storing tags one after another, each over what was there. */
  function Store(tags: Tags, ts: seq<Tag>): Tags
    decreases |ts|
  {
    if ts == [] then tags else Store(tags[ts[0].name := Record(ts[0])], ts[1..])
  }

  /** The `k`th entry of the IFD whose first entry is at `entry`. */
  function EntryAt(reader: TagReader, entry: int, k: nat): Result<Tag, Error> {
    reader(entry + 12 * k)
  }

  /** Counting entries from the next one shifts the index by one. */
  lemma EntryAtNext(reader: TagReader, entry: int, k: nat)
    ensures EntryAt(reader, entry + 12, k) == EntryAt(reader, entry, k + 1)
    ensures EntryAt(reader, entry, 0) == reader(entry)
  {
    assert entry + 12 + 12 * k == entry + 12 * (k + 1);
  }

  /** With `_readTag` as the reader, an entry is the tag read at its offset. */
  lemma EntryAtTag(d: seq<Byte>, le: bool, tiff: int, kind: IfdKind, first: int, k: nat, entry: int)
    requires entry == first + 12 * k
    ensures EntryAt(EntryReader(d, le, tiff, kind), first, k) == ReadTag(d, le, tiff, kind, entry)
  {
  }

  /** The `n` tags of an IFD, in order, or the first failure. */
  function ReadAll(reader: TagReader, entry: int, n: nat): Result<seq<Tag>, Error>
    decreases n
  {
    if n == 0 then Ok([])
    else
      var t :- reader(entry);
      var rest :- ReadAll(reader, entry + 12, n - 1);
      Ok([t] + rest)
  }

  /** The loop of `_readIfd` is the storing of the IFD's tags in order. */
  lemma {:induction false} ReadEntriesIsStore(reader: TagReader, entry: int, n: nat, tags: Tags)
    ensures ReadEntries(reader, entry, n, tags) ==
      match ReadAll(reader, entry, n)
      case Ok(ts) => Ok(Store(tags, ts))
      case Err(e) => Err(e)
    decreases n
  {
    if n > 0 {
      var t := reader(entry);
      if t.Ok? {
        var tags' := tags[t.value.name := Record(t.value)];
        ReadEntriesIsStore(reader, entry + 12, n - 1, tags');
        var rest := ReadAll(reader, entry + 12, n - 1);
        if rest.Ok? {
          assert ([t.value] + rest.value)[1..] == rest.value;
        }
      }
    }
  }

  /** The IFD reads exactly when each of its entries does, and then its
      tags are the entries' tags in order. */
  lemma {:induction false} ReadAllAt(reader: TagReader, entry: int, n: nat)
    ensures ReadAll(reader, entry, n).Ok? <==>
      forall k :: 0 <= k < n ==> EntryAt(reader, entry, k).Ok?
    ensures ReadAll(reader, entry, n).Ok? ==>
      var ts := ReadAll(reader, entry, n).value;
      |ts| == n && forall k :: 0 <= k < n ==> EntryAt(reader, entry, k) == Ok(ts[k])
    decreases n
  {
    if n > 0 {
      var next := entry + 12;
      ReadAllAt(reader, next, n - 1);
      forall k | 0 <= k < n - 1
        ensures EntryAt(reader, next, k) == EntryAt(reader, entry, k + 1)
      {
        assert next + 12 * k == entry + 12 * (k + 1);
      }
      assert EntryAt(reader, entry, 0) == reader(entry);
      var x, rest := reader(entry), ReadAll(reader, next, n - 1);
      if x.Ok? && rest.Ok? {
        var ts := [x.value] + rest.value;
        assert ReadAll(reader, entry, n) == Ok(ts);
        forall k | 0 <= k < n ensures EntryAt(reader, entry, k) == Ok(ts[k]) {
          if k > 0 {
            assert EntryAt(reader, next, k - 1) == EntryAt(reader, entry, k);
          }
        }
      } else if x.Ok? {
        var k :| 0 <= k < n - 1 && !EntryAt(reader, next, k).Ok?;
        assert !EntryAt(reader, entry, k + 1).Ok?;
      }
    }
  }

  /** The keys after storing: the old ones and every stored name. */
  lemma {:induction false} StoreKeys(tags: Tags, ts: seq<Tag>)
    ensures Store(tags, ts).Keys == tags.Keys + set t | t in ts :: t.name
    decreases |ts|
  {
    if ts != [] {
      StoreKeys(tags[ts[0].name := Record(ts[0])], ts[1..]);
      assert forall t :: t in ts <==> t == ts[0] || t in ts[1..];
    }
  }

  /** A stored name holds the record of the last tag that carried it. */
  lemma {:induction false} StoreLastWins(tags: Tags, ts: seq<Tag>, k: nat)
    requires k < |ts|
    requires forall j :: k < j < |ts| ==> ts[j].name != ts[k].name
    ensures ts[k].name in Store(tags, ts) && Store(tags, ts)[ts[k].name] == Record(ts[k])
    decreases |ts|
  {
    var tags' := tags[ts[0].name := Record(ts[0])];
    if k == 0 {
      StoreKeepsOthers(tags', ts[1..], ts[0].name);
    } else {
      StoreLastWins(tags', ts[1..], k - 1);
    }
  }

  /** A name no stored tag carries keeps what it held. */
  lemma {:induction false} StoreKeepsOthers(tags: Tags, ts: seq<Tag>, key: string)
    requires key in tags
    requires forall j :: 0 <= j < |ts| ==> ts[j].name != key
    ensures key in Store(tags, ts) && Store(tags, ts)[key] == tags[key]
    decreases |ts|
  {
    if ts != [] {
      StoreKeepsOthers(tags[ts[0].name := Record(ts[0])], ts[1..], key);
    }
  }

  /** After an IFD whose `n` entries all read, the map holds the old keys
      and the entries' names; each name has the record of its last entry,
      and an old key no entry names keeps its record. */
  lemma IfdContents(reader: TagReader, entry: int, n: nat, tags: Tags)
    ensures ReadEntries(reader, entry, n, tags).Ok? <==>
      forall k :: 0 <= k < n ==> EntryAt(reader, entry, k).Ok?
    ensures ReadEntries(reader, entry, n, tags).Ok? ==>
      exists ts: seq<Tag> ::
        && |ts| == n
        && (forall k :: 0 <= k < n ==> EntryAt(reader, entry, k) == Ok(ts[k]))
        && ReadEntries(reader, entry, n, tags) == Ok(Store(tags, ts))
        && Store(tags, ts).Keys == tags.Keys + set t | t in ts :: t.name
  {
    ReadEntriesIsStore(reader, entry, n, tags);
    ReadAllAt(reader, entry, n);
    var all := ReadAll(reader, entry, n);
    if all.Ok? {
      StoreKeys(tags, all.value);
    }
  }
  /** Storing one tag more stores it over what the others left. */
  lemma {:induction false} StoreSnoc(tags: Tags, ts: seq<Tag>, t: Tag)
    ensures Store(tags, ts + [t]) == Store(tags, ts)[t.name := Record(t)]
    decreases |ts|
  {
    if ts != [] {
      assert (ts + [t])[1..] == ts[1..] + [t];
      StoreSnoc(tags[ts[0].name := Record(ts[0])], ts[1..], t);
    }
  }

  /** One more entry: the first entry's tag ahead of the rest, or the
      first failure. */
  lemma ReadAllStep(reader: TagReader, entry: int, m: nat)
    ensures ReadAll(reader, entry, m + 1) ==
      match reader(entry)
      case Err(e) => Err(e)
      case Ok(x) =>
        match ReadAll(reader, entry + 12, m)
        case Err(e) => Err(e)
        case Ok(rest) => Ok([x] + rest)
  {
  }

  /** Tags read from an IFD start with the first entry's tag, followed by
      the tags of the entries after it. */
  lemma ReadAllUncons(reader: TagReader, entry: int, k: nat, ts: seq<Tag>)
    requires k > 0 && |ts| == k && ReadAll(reader, entry, k) == Ok(ts)
    ensures reader(entry) == Ok(ts[0])
    ensures ReadAll(reader, entry + 12, k - 1) == Ok(ts[1..])
  {
    ReadAllStep(reader, entry, k - 1);
    var rest := ReadAll(reader, entry + 12, k - 1);
    assert rest.Ok? && ts == [ts[0]] + rest.value;
    assert rest.value == ts[1..];
  }

  /** Reading one entry more extends the list of tags read by its tag. */
  lemma {:induction false} ReadAllSnoc(reader: TagReader, entry: int, k: nat,
                                       ts: seq<Tag>, t: Tag)
    requires |ts| == k && ReadAll(reader, entry, k) == Ok(ts)
    requires EntryAt(reader, entry, k) == Ok(t)
    ensures ReadAll(reader, entry, k + 1) == Ok(ts + [t])
    decreases k
  {
    var next := entry + 12;
    ReadAllStep(reader, entry, k);
    if k == 0 {
      EntryAtNext(reader, entry, 0);
      assert ReadAll(reader, next, 0) == Ok([]);
      assert ts + [t] == [t] + [];
    } else {
      ReadAllUncons(reader, entry, k, ts);
      EntryAtNext(reader, entry, k - 1);
      ReadAllSnoc(reader, next, k - 1, ts[1..], t);
      assert [ts[0]] + (ts[1..] + [t]) == ts + [t];
    }
  }

  /** The walk of the IFD at `offset` stored the tags `read` and then
      failed with `e`: either its entry count cannot be read, or `read` are
      the tags of its first entries and the entry after them fails. */
  predicate StoppedAt(d: seq<Byte>, le: bool, tiff: int, kind: IfdKind, offset: int, read: seq<Tag>, e: Error) {
    match Uint16(d, offset, le)
    case Err(e') => read == [] && e == e'
    case Ok(n) =>
      && |read| < n
      && ReadAll(EntryReader(d, le, tiff, kind), offset + 2, |read|) == Ok(read)
      && EntryAt(EntryReader(d, le, tiff, kind), offset + 2, |read|) == Err(e)
  }

  /** The step that follows `pointer` stored `read` and then failed with
      `e`: the pointer is not one integer, or the IFD it points to stopped. */
  predicate PointerStopped(d: seq<Byte>, le: bool, tiff: int, kind: IfdKind, pointer: string, tags: Tags,
                           read: seq<Tag>, e: Error) {
    && pointer in tags
    && match tags[pointer].value
       case Single(Int(p)) => StoppedAt(d, le, tiff, kind, tiff + p, read, e)
       case _ => read == [] && e == PointerNotInteger
  }

  /** A pointer holding one integer is followed to the IFD at that offset
      from the TIFF header. */
  lemma FollowPointerTo(d: seq<Byte>, le: bool, tiff: int, kind: IfdKind, pointer: string, tags: Tags, p: int, offset: int)
    requires pointer in tags && tags[pointer].value == Single(Int(p)) && offset == tiff + p
    ensures ExifDecode.FollowPointer(d, le, tiff, kind, pointer, tags) == ExifDecode.ReadIfd(d, le, tiff, kind, offset, tags)
  {
  }

  /** A pointer holding one integer stops where the IFD it points to does. */
  lemma PointerStoppedAt(d: seq<Byte>, le: bool, tiff: int, kind: IfdKind, pointer: string, tags: Tags, p: int,
                         offset: int, read: seq<Tag>, e: Error)
    requires pointer in tags && tags[pointer].value == Single(Int(p)) && offset == tiff + p
    requires StoppedAt(d, le, tiff, kind, offset, read, e)
    ensures PointerStopped(d, le, tiff, kind, pointer, tags, read, e)
  {
  }

  /** The loop of `_readIfd` in terms of the tags it has read: when the
      first `|read|` entries read as `read`, and either that is all `n` of
      them or the next entry fails with `e`, the loop ends with `e` (or
      success) and the map holds `read` stored in order over the old map. */
  lemma {:induction false} EntriesFromPrefix(reader: TagReader, entry: int, n: nat,
                                             tags: Tags, read: seq<Tag>, e: Option<Error>)
    requires |read| <= n && ReadAll(reader, entry, |read|) == Ok(read)
    requires e.None? ==> |read| == n
    requires e.Some? ==> |read| < n && EntryAt(reader, entry, |read|) == Err(e.value)
    ensures ReadEntries(reader, entry, n, tags) ==
      match e
      case None => Ok(Store(tags, read))
      case Some(err) => Err(err)
    decreases n
  {
    if read != [] {
      var next := entry + 12;
      var tags' := tags[read[0].name := Record(read[0])];
      ReadAllUncons(reader, entry, |read|, read);
      ReadEntriesStep(reader, entry, n, tags, read[0]);
      EntryAtNext(reader, entry, |read| - 1);
      EntriesFromPrefix(reader, next, n - 1, tags', read[1..], e);
      assert Store(tags, read) == Store(tags', read[1..]);
    } else if e.Some? {
      EntryAtNext(reader, entry, 0);
      ReadEntriesStop(reader, entry, n, tags);
    }
  }

  /** A stopped walk names its tags and its error uniquely: two accounts of
      where the same IFD stopped agree. */
  lemma StoppedAtUnique(d: seq<Byte>, le: bool, tiff: int, kind: IfdKind, offset: int,
                        r1: seq<Tag>, e1: Error, r2: seq<Tag>, e2: Error)
    requires StoppedAt(d, le, tiff, kind, offset, r1, e1) && StoppedAt(d, le, tiff, kind, offset, r2, e2)
    ensures r1 == r2 && e1 == e2
  {
    if Uint16(d, offset, le).Ok? {
      var entry := offset + 2;
      ReadAllAt(EntryReader(d, le, tiff, kind), entry, |r1|);
      ReadAllAt(EntryReader(d, le, tiff, kind), entry, |r2|);
      if |r1| == |r2| {
        assert forall k :: 0 <= k < |r1| ==> r1[k] == r2[k] by {
          forall k | 0 <= k < |r1| ensures r1[k] == r2[k] {
            assert EntryAt(EntryReader(d, le, tiff, kind), entry, k) == Ok(r1[k]);
          }
        }
      }
    }
  }

  /** A stopped walk is the walk `_readIfd` makes: it fails with that
      error. */
  lemma StoppedAtFails(d: seq<Byte>, le: bool, tiff: int, kind: IfdKind, offset: int, tags: Tags, read: seq<Tag>, e: Error)
    requires StoppedAt(d, le, tiff, kind, offset, read, e)
    ensures ExifDecode.ReadIfd(d, le, tiff, kind, offset, tags) == Err(e)
  {
    if Uint16(d, offset, le).Ok? {
      var n := Uint16(d, offset, le).value;
      EntriesFromPrefix(EntryReader(d, le, tiff, kind), offset + 2, n, tags, read, Some(e));
    }
  }
}
