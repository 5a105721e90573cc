/**
 * The mod index (src/mods.rs): building the index from the entries of the
 * repository archive, the archive URL per forge, and the windowed thumbnail
 * fetches that update the index in place.
 *
 * Zip decoding, JSON decoding of `meta.json`, lossy UTF-8 decoding and the
 * LFS pointer parser are parameters; the LFS batch and blob fetches that the windowed methods call
 * are parameters too.
 */
module Mods {
  import opened Wrappers
  import opened Text
  import opened Forge
  import opened Lfs

  /** The name of a mod's directory in the index repository. */
  datatype ModId = ModId(name: string)

  /** `impl PartialEq<str> for ModId`: an id equals a string exactly when it wraps that string. */
  function ModIdEq(id: ModId, other: string): (r: bool)
    ensures r <==> id == ModId(other)
  {
    id.name == other
  }

  /** `ModMeta`, the decoded `meta.json` of one mod. */
  datatype ModMeta = ModMeta(
    requiresSteamodded: bool,
    requiresTalisman: bool,
    categories: seq<string>,
    author: string,
    repo: string,
    title: string,
    downloadUrl: string,
    folderName: Option<string>,
    version: string,
    automaticVersionCheck: bool,
    lastUpdated: Option<nat>)

  /** `ModMeta::default()`. */
  const DefaultMeta: ModMeta := ModMeta(false, false, [], "", "", "", "", None, "", false, None)

  /**
   * `lfs::Blob`: a pointer, the download URL once resolved, the downloaded
   * bytes or the reason there are none, and the repository it belongs to.
   */
  datatype Blob = Blob(pointer: Pointer, url: Option<string>, data: Result<seq<byte>>, tree: Tree)

  const NO_DOWNLOAD_YET: string := "no download attempts yet"

  /** The blob `from_zip` builds for a thumbnail pointer: no URL and no download yet. */
  function NewBlob(pointer: Pointer, tree: Tree): (b: Blob)
    ensures b.pointer == pointer && b.tree == tree
    ensures b.url.None? && b.data == Err(NO_DOWNLOAD_YET)
  {
    Blob(pointer, None, Err(NO_DOWNLOAD_YET), tree)
  }

  /** One mod of the index. */
  datatype Mod = Mod(meta: ModMeta, description: Option<string>, thumbnail: Option<Blob>)

  /** `Mod::default()`, what `entry(..).or_default()` inserts. */
  const DefaultMod: Mod := Mod(DefaultMeta, None, None)

  // =====================================================================
  // from_reqwest: the archive URL
  // =====================================================================

  /**
   * The URL of the zip archive of the index at `tree`: the branch archive on
   * GitHub, the repository archive API (without LFS blobs) on GitLab. The URL
   * is `https://{host}/` followed by the path named here and nothing else.
   */
  function ArchiveUrl(tree: Tree): (url: string)
    ensures StartsWith(url, "https://" + tree.hostname + "/")
    ensures tree.forge == GitHub ==>
      var path := tree.namespace + "/" + tree.name + "/archive/refs/heads/" + tree.rev + ".zip";
      EndsWith(url, path) && |url| == |"https://" + tree.hostname + "/"| + |path|
    ensures tree.forge == GitLab ==>
      var path := "api/v4/projects/" + tree.namespace + "%2F" + tree.name
                  + "/repository/archive.zip?include_lfs_blobs=false&sha=" + tree.rev;
      EndsWith(url, path) && |url| == |"https://" + tree.hostname + "/"| + |path|
  {
    var host := "https://" + tree.hostname + "/";
    var path := match tree.forge
      case GitHub => tree.namespace + "/" + tree.name + "/archive/refs/heads/" + tree.rev + ".zip"
      case GitLab =>
        "api/v4/projects/" + tree.namespace + "%2F" + tree.name
        + "/repository/archive.zip?include_lfs_blobs=false&sha=" + tree.rev;
    AffixesOfConcat(host, path);
    host + path
  }

  // =====================================================================
  // from_zip
  // =====================================================================

  /** One entry of the archive: its path, whether it is a regular file, and its contents. */
  datatype Entry = Entry(name: string, isFile: bool, bytes: seq<byte>)

  /** `ModMeta::from_slice`: JSON decoding, which may fail with a message. */
  type MetaDecoder = seq<byte> -> Result<ModMeta>

  /** `String::from_utf8_lossy`: never fails. */
  type LossyDecoder = seq<byte> -> string

  /**
   * `lfs::parse_pointer`, whose meaning is `Lfs.Parse` (computed by
   * `Lfs.ParsePointer`); the rules below hold for any parser, and
   * `ThumbnailEntryParsed` plugs in the real one.
   */
  type PointerParser = string -> Result<Pointer>

  /**
   * An entry is looked at only if it is a file whose first two path components
   * are a directory whose name starts with `{name}-{rev}` and then `mods`.
   */
  predicate Considered(e: Entry, tree: Tree)
  {
    var parts := Split(e.name, '/');
    e.isFile && |parts| >= 2 && StartsWith(parts[0], tree.name + "-" + tree.rev) && parts[1] == "mods"
  }

  /** What the file name inside a mod's directory selects. */
  datatype FileKind = MetaFile | DescriptionFile | ThumbnailFile | OtherFile

  function KindOf(name: string): FileKind
  {
    if name == "meta.json" then MetaFile
    else if name == "description.md" then DescriptionFile
    else if name == "thumbnail.jpg" || name == "thumbnail.png" then ThumbnailFile
    else OtherFile
  }

  /** What a considered entry does to the mod it names. */
  datatype Action =
    | Skip
    | Touch(id: ModId)
    | SetMeta(id: ModId, meta: ModMeta)
    | SetDescription(id: ModId, text: string)
    | SetThumbnail(id: ModId, blob: Blob)

  /** What the file selected by `kind` sets on the mod `id`, given the file's bytes. */
  function Dispatch(id: ModId, kind: FileKind, bytes: seq<byte>, tree: Tree, decodeMeta: MetaDecoder,
                    lossy: LossyDecoder, parse: PointerParser): (r: Result<Action>)
    ensures r.Ok? ==> !r.value.Skip? && r.value.id == id
  {
    match kind
    case MetaFile =>
      (match decodeMeta(bytes)
       case Err(err) => Err("couldn't parse mod meta for " + id.name + ": " + err)
       case Ok(meta) => Ok(SetMeta(id, meta)))
    case DescriptionFile => Ok(SetDescription(id, lossy(bytes)))
    case ThumbnailFile =>
      (match parse(lossy(bytes))
       case Err(err) => Err("couldn't parse lfs pointer: " + err)
       case Ok(pointer) => Ok(SetThumbnail(id, NewBlob(pointer, tree))))
    case OtherFile => Ok(Touch(id))
  }

  /**
   * The rules for one entry: the third path component names the mod, the
   * fourth selects what is set; `meta.json` and thumbnail pointers must decode.
   */
  function Classify(e: Entry, tree: Tree, decodeMeta: MetaDecoder, lossy: LossyDecoder,
                    parse: PointerParser): Result<Action>
  {
    if !Considered(e, tree) then Ok(Skip)
    else
      var parts := Split(e.name, '/')[2..];
      if |parts| == 0 then Err("path is not pathing")
      else
        var id := ModId(parts[0]);
        if |parts| < 2 then Err("sub-path is not pathing")
        else Dispatch(id, KindOf(parts[1]), e.bytes, tree, decodeMeta, lossy, parse)
  }

  /** The mod with this id, created with defaults if it is not there yet. */
  function OrDefault(mods: map<ModId, Mod>, id: ModId): Mod
  {
    if id in mods then mods[id] else DefaultMod
  }

  /** The mod with the field an action selects set. */
  function Update(action: Action, m: Mod): Mod
  {
    match action
    case Skip => m
    case Touch(_) => m
    case SetMeta(_, meta) => m.(meta := meta)
    case SetDescription(_, text) => m.(description := Some(text))
    case SetThumbnail(_, blob) => m.(thumbnail := Some(blob))
  }

  /** An action finds or creates the mod it names and updates it. */
  function Perform(action: Action, mods: map<ModId, Mod>): map<ModId, Mod>
  {
    if action.Skip? then mods else mods[action.id := Update(action, OrDefault(mods, action.id))]
  }

  /** The entries applied in order; the first failing entry fails the whole archive. */
  function CollectEntries(entries: seq<Entry>, tree: Tree, decodeMeta: MetaDecoder, lossy: LossyDecoder,
                          parse: PointerParser,
                          mods: map<ModId, Mod>): Result<map<ModId, Mod>>
  {
    if entries == [] then Ok(mods)
    else match Classify(entries[0], tree, decodeMeta, lossy, parse)
      case Err(e) => Err(e)
      case Ok(action) => CollectEntries(entries[1..], tree, decodeMeta, lossy, parse, Perform(action, mods))
  }

  /** The map of mods `from_zip` builds from an archive. */
  function IndexMap(entries: seq<Entry>, tree: Tree, decodeMeta: MetaDecoder, lossy: LossyDecoder,
                    parse: PointerParser)
    : Result<map<ModId, Mod>>
  {
    CollectEntries(entries, tree, decodeMeta, lossy, parse, map[])
  }

  /** `list` holds each key of `m` exactly once, with its value, in some order. */
  predicate ListsMap<K, V(==)>(list: seq<(K, V)>, m: map<K, V>)
  {
    && |list| == |m|
    && (forall i :: 0 <= i < |list| ==> list[i].0 in m && m[list[i].0] == list[i].1)
    && (forall k :: k in m ==> exists i :: 0 <= i < |list| && list[i].0 == k)
    && (forall i, j :: 0 <= i < j < |list| ==> list[i].0 != list[j].0)
  }

  /** The mod an entry names: the third component of its path. */
  predicate Names(e: Entry, tree: Tree, id: ModId)
  {
    var parts := Split(e.name, '/');
    Considered(e, tree) && |parts| >= 3 && id == ModId(parts[2])
  }

  /**
   * An entry that is not considered does nothing; an accepted considered entry
   * acts on the mod its third path component names, and needs a fourth.
   */
  lemma ClassifyNames(e: Entry, tree: Tree, decodeMeta: MetaDecoder, lossy: LossyDecoder, parse: PointerParser)
    ensures !Considered(e, tree) ==> Classify(e, tree, decodeMeta, lossy, parse) == Ok(Skip)
    ensures Considered(e, tree) && Classify(e, tree, decodeMeta, lossy, parse).Ok? ==>
      var action := Classify(e, tree, decodeMeta, lossy, parse).value;
      !action.Skip? && |Split(e.name, '/')| >= 4 && Names(e, tree, action.id)
    ensures Considered(e, tree) && |Split(e.name, '/')| < 4 ==> Classify(e, tree, decodeMeta, lossy, parse).Err?
  {
    if Considered(e, tree) {
      var parts := Split(e.name, '/');
      if |parts| >= 4 {
        assert parts[2..][0] == parts[2] && parts[2..][1] == parts[3];
        assert Classify(e, tree, decodeMeta, lossy, parse) ==
          Dispatch(ModId(parts[2]), KindOf(parts[3]), e.bytes, tree, decodeMeta, lossy, parse);
      }
    }
  }

  /**
   * The action each file name in a mod's directory yields: `meta.json` must
   * decode and sets the meta, `description.md` sets the description, a
   * thumbnail must hold an LFS pointer and sets a fresh blob for it, and any
   * other name only makes sure the mod exists.
   */
  lemma DispatchByName(id: ModId, name: string, bytes: seq<byte>, tree: Tree, decodeMeta: MetaDecoder,
                       lossy: LossyDecoder, parse: PointerParser)
    ensures name == "meta.json" && decodeMeta(bytes).Err? ==>
      Dispatch(id, KindOf(name), bytes, tree, decodeMeta, lossy, parse)
        == Err("couldn't parse mod meta for " + id.name + ": " + decodeMeta(bytes).error)
    ensures name == "meta.json" && decodeMeta(bytes).Ok? ==>
      Dispatch(id, KindOf(name), bytes, tree, decodeMeta, lossy, parse) == Ok(SetMeta(id, decodeMeta(bytes).value))
    ensures name == "description.md" ==>
      Dispatch(id, KindOf(name), bytes, tree, decodeMeta, lossy, parse) == Ok(SetDescription(id, lossy(bytes)))
    ensures (name == "thumbnail.jpg" || name == "thumbnail.png") && parse(lossy(bytes)).Err? ==>
      Dispatch(id, KindOf(name), bytes, tree, decodeMeta, lossy, parse) == Err("couldn't parse lfs pointer: " + parse(lossy(bytes)).error)
    ensures (name == "thumbnail.jpg" || name == "thumbnail.png") && parse(lossy(bytes)).Ok? ==>
      Dispatch(id, KindOf(name), bytes, tree, decodeMeta, lossy, parse) == Ok(SetThumbnail(id, NewBlob(parse(lossy(bytes)).value, tree)))
    ensures name != "meta.json" && name != "description.md" && name != "thumbnail.jpg" && name != "thumbnail.png" ==>
      Dispatch(id, KindOf(name), bytes, tree, decodeMeta, lossy, parse) == Ok(Touch(id))
  {
  }

  /** A considered entry with a fourth path component is dispatched on it, for the mod its third names. */
  lemma ClassifyDispatches(e: Entry, tree: Tree, decodeMeta: MetaDecoder, lossy: LossyDecoder, parse: PointerParser)
    requires Considered(e, tree) && |Split(e.name, '/')| >= 4
    ensures Classify(e, tree, decodeMeta, lossy, parse)
      == Dispatch(ModId(Split(e.name, '/')[2]), KindOf(Split(e.name, '/')[3]), e.bytes, tree, decodeMeta, lossy, parse)
  {
    var parts := Split(e.name, '/');
    assert parts[2..][0] == parts[2] && parts[2..][1] == parts[3];
  }

  /**
   * Acting on a mod creates it if needed and changes no other mod; only the
   * field the entry selects changes, the others are the old mod's or the defaults.
   */
  lemma PerformSpec(action: Action, mods: map<ModId, Mod>)
    ensures action.Skip? ==> Perform(action, mods) == mods
    ensures !action.Skip? ==>
      var r := Perform(action, mods);
      var old_ := OrDefault(mods, action.id);
      && r.Keys == mods.Keys + {action.id}
      && (forall id :: id in mods && id != action.id ==> r[id] == mods[id])
      && (action.SetMeta? ==> r[action.id].meta == action.meta)
      && (!action.SetMeta? ==> r[action.id].meta == old_.meta)
      && (action.SetDescription? ==> r[action.id].description == Some(action.text))
      && (!action.SetDescription? ==> r[action.id].description == old_.description)
      && (action.SetThumbnail? ==> r[action.id].thumbnail == Some(action.blob))
      && (!action.SetThumbnail? ==> r[action.id].thumbnail == old_.thumbnail)
  {
  }

  /** The archive is rejected exactly when one of its entries is. */
  lemma {:induction false} CollectFailsIff(entries: seq<Entry>, tree: Tree, decodeMeta: MetaDecoder,
                                          lossy: LossyDecoder, parse: PointerParser, mods: map<ModId, Mod>)
    ensures CollectEntries(entries, tree, decodeMeta, lossy, parse, mods).Err? <==>
      exists i :: 0 <= i < |entries| && Classify(entries[i], tree, decodeMeta, lossy, parse).Err?
  {
    if entries != [] {
      match Classify(entries[0], tree, decodeMeta, lossy, parse)
      case Err(_) =>
      case Ok(action) =>
        CollectFailsIff(entries[1..], tree, decodeMeta, lossy, parse, Perform(action, mods));
        if exists i :: 0 <= i < |entries| && Classify(entries[i], tree, decodeMeta, lossy, parse).Err? {
          var i :| 0 <= i < |entries| && Classify(entries[i], tree, decodeMeta, lossy, parse).Err?;
          assert entries[1..][i - 1] == entries[i];
        }
        if exists i :: 0 <= i < |entries| - 1 && Classify(entries[1..][i], tree, decodeMeta, lossy, parse).Err? {
          var i :| 0 <= i < |entries| - 1 && Classify(entries[1..][i], tree, decodeMeta, lossy, parse).Err?;
          assert entries[i + 1] == entries[1..][i];
        }
    }
  }

  /** An accepted entry adds the mod it names, if any, and no other. */
  lemma StepKeys(e: Entry, tree: Tree, decodeMeta: MetaDecoder, lossy: LossyDecoder,
                 parse: PointerParser, mods: map<ModId, Mod>)
    requires Classify(e, tree, decodeMeta, lossy, parse).Ok?
    ensures forall id :: id in Perform(Classify(e, tree, decodeMeta, lossy, parse).value, mods) <==>
      id in mods || Names(e, tree, id)
  {
    ClassifyNames(e, tree, decodeMeta, lossy, parse);
  }

  /**
   * The mods of a successfully read archive are exactly the ones some
   * considered entry names (plus those there at the start).
   */
  lemma {:induction false} CollectKeys(entries: seq<Entry>, tree: Tree, decodeMeta: MetaDecoder,
                                      lossy: LossyDecoder, parse: PointerParser, mods: map<ModId, Mod>)
    requires CollectEntries(entries, tree, decodeMeta, lossy, parse, mods).Ok?
    ensures forall id :: id in CollectEntries(entries, tree, decodeMeta, lossy, parse, mods).value <==>
      id in mods || exists i :: 0 <= i < |entries| && Names(entries[i], tree, id)
  {
    if entries != [] {
      var action := Classify(entries[0], tree, decodeMeta, lossy, parse).value;
      var next := Perform(action, mods);
      var tail := entries[1..];
      CollectKeys(tail, tree, decodeMeta, lossy, parse, next);
      StepKeys(entries[0], tree, decodeMeta, lossy, parse, mods);
      var r := CollectEntries(entries, tree, decodeMeta, lossy, parse, mods).value;
      assert r == CollectEntries(tail, tree, decodeMeta, lossy, parse, next).value;
      forall id
        ensures id in r <==> id in mods || exists i :: 0 <= i < |entries| && Names(entries[i], tree, id)
      {
        if exists i :: 0 <= i < |entries| && Names(entries[i], tree, id) {
          var i :| 0 <= i < |entries| && Names(entries[i], tree, id);
          if i > 0 {
            assert tail[i - 1] == entries[i];
          }
        }
        if exists i :: 0 <= i < |tail| && Names(tail[i], tree, id) {
          var i :| 0 <= i < |tail| && Names(tail[i], tree, id);
          assert entries[i + 1] == tail[i];
        }
      }
    }
  }

  /** Every thumbnail blob is a fresh one of this repository: no URL and no download yet. */
  predicate ThumbnailsUnfetched(mods: map<ModId, Mod>, tree: Tree)
  {
    forall id :: id in mods && mods[id].thumbnail.Some? ==> mods[id].thumbnail.value == NewBlob(mods[id].thumbnail.value.pointer, tree)
  }

  /**
   * With the real pointer parser, a thumbnail file is read as an LFS pointer:
   * one that does not parse rejects the entry with the parser's error, one
   * that parses becomes a fresh blob of the mod the entry names.
   */
  lemma ThumbnailEntryParsed(e: Entry, tree: Tree, decodeMeta: MetaDecoder, lossy: LossyDecoder)
    requires Considered(e, tree) && |Split(e.name, '/')| >= 4 && KindOf(Split(e.name, '/')[3]) == ThumbnailFile
    ensures Parse(lossy(e.bytes)).Err? ==>
      Classify(e, tree, decodeMeta, lossy, Parse) == Err("couldn't parse lfs pointer: " + Parse(lossy(e.bytes)).error)
    ensures Parse(lossy(e.bytes)).Ok? ==>
      Classify(e, tree, decodeMeta, lossy, Parse)
        == Ok(SetThumbnail(ModId(Split(e.name, '/')[2]), NewBlob(Parse(lossy(e.bytes)).value, tree)))
  {
    var parts := Split(e.name, '/');
    assert parts[2..][0] == parts[2] && parts[2..][1] == parts[3];
  }

  /** A thumbnail file holding a pointer in the standard three-line form attaches exactly that pointer. */
  lemma RenderedThumbnailAttached(e: Entry, tree: Tree, decodeMeta: MetaDecoder, lossy: LossyDecoder, p: Pointer)
    requires Considered(e, tree) && |Split(e.name, '/')| >= 4 && KindOf(Split(e.name, '/')[3]) == ThumbnailFile
    requires lossy(e.bytes) == RenderPointer(p) && PlainOid(p.oid) && p.size <= USIZE_MAX
    ensures Classify(e, tree, decodeMeta, lossy, Parse) == Ok(SetThumbnail(ModId(Split(e.name, '/')[2]), NewBlob(p, tree)))
  {
    ParseRenderPointer(p);
    ThumbnailEntryParsed(e, tree, decodeMeta, lossy);
  }

  /** A thumbnail an entry sets is always a fresh blob of the repository being read. */
  lemma ClassifiedThumbnailUnfetched(e: Entry, tree: Tree, decodeMeta: MetaDecoder, lossy: LossyDecoder,
                                     parse: PointerParser)
    requires Classify(e, tree, decodeMeta, lossy, parse).Ok? && Classify(e, tree, decodeMeta, lossy, parse).value.SetThumbnail?
    ensures var blob := Classify(e, tree, decodeMeta, lossy, parse).value.blob;
      blob == NewBlob(blob.pointer, tree)
  {
  }

  lemma PerformKeepsUnfetched(action: Action, mods: map<ModId, Mod>, tree: Tree)
    requires ThumbnailsUnfetched(mods, tree)
    requires action.SetThumbnail? ==> action.blob == NewBlob(action.blob.pointer, tree)
    ensures ThumbnailsUnfetched(Perform(action, mods), tree)
  {
  }

  lemma {:induction false} CollectThumbnailsUnfetched(entries: seq<Entry>, tree: Tree, decodeMeta: MetaDecoder,
                                                     lossy: LossyDecoder, parse: PointerParser, mods: map<ModId, Mod>)
    requires ThumbnailsUnfetched(mods, tree)
    requires CollectEntries(entries, tree, decodeMeta, lossy, parse, mods).Ok?
    ensures ThumbnailsUnfetched(CollectEntries(entries, tree, decodeMeta, lossy, parse, mods).value, tree)
  {
    if entries != [] {
      var action := Classify(entries[0], tree, decodeMeta, lossy, parse).value;
      if action.SetThumbnail? {
        ClassifiedThumbnailUnfetched(entries[0], tree, decodeMeta, lossy, parse);
      }
      PerformKeepsUnfetched(action, mods, tree);
      CollectThumbnailsUnfetched(entries[1..], tree, decodeMeta, lossy, parse, Perform(action, mods));
    }
  }

  /** The window the cursor of `mut_fetch_blob_urls` selects is the page `BatchPointers` gives, and its cursor the same. */
  lemma WindowIsBatchPage(mods: seq<(ModId, Mod)>, offset: nat, count: nat)
    ensures offset >= |mods| <==> BatchPointers(mods, offset, count).Err?
    ensures offset < |mods| ==>
      BatchPointers(mods, offset, count)
        == Ok((mods[offset..Min(offset + count, |mods|)], Min(offset + count, |mods|)))
  {
  }

  /** Lists the entries of a map, each key once, in an order of its own choosing (`HashMap::into_iter`). */
  method ListMap<K, V(==)>(m: map<K, V>) returns (list: seq<(K, V)>)
    ensures ListsMap(list, m)
  {
    var rest := m;
    list := [];
    while rest != map[]
      invariant forall k :: k in rest ==> k in m && rest[k] == m[k]
      invariant forall i :: 0 <= i < |list| ==> list[i].0 in m && list[i].0 !in rest && m[list[i].0] == list[i].1
      invariant forall k :: k in m ==> k in rest || exists i :: 0 <= i < |list| && list[i].0 == k
      invariant forall i, j :: 0 <= i < j < |list| ==> list[i].0 != list[j].0
      invariant |list| + |rest| == |m|
      decreases |rest|
    {
      var k :| k in rest;
      ghost var before := list;
      list := list + [(k, rest[k])];
      assert forall i :: 0 <= i < |before| ==> list[i] == before[i];
      assert list[|before|].0 == k;
      ghost var keys := rest.Keys;
      rest := rest - {k};
      assert rest.Keys == keys - {k};
      assert |rest.Keys| == |keys| - 1;
    }
  }

  // =====================================================================
  // the thumbnail window of mut_fetch_blob_urls / mut_fetch_blobs
  // =====================================================================

  /** The thumbnail blobs of a run of mods, in order, skipping mods without one. */
  function Thumbnails(window: seq<(ModId, Mod)>): (r: seq<Blob>)
    ensures |r| <= |window|
  {
    if window == [] then []
    else
      var first := match window[0].1.thumbnail case None => [] case Some(b) => [b];
      first + Thumbnails(window[1..])
  }

  /** A single mod contributes its thumbnail if it has one, and nothing otherwise. */
  lemma ThumbnailsOne(m: (ModId, Mod))
    ensures Thumbnails([m]) == if m.1.thumbnail.Some? then [m.1.thumbnail.value] else []
  {
    assert [m][1..] == [];
  }

  /**
   * The thumbnails of two runs of mods are those of the first run followed by
   * those of the second: with `ThumbnailsOne`, the blobs handed on are the
   * window's thumbnails in index order, mods without one skipped.
   */
  lemma {:induction false} ThumbnailsAppend(a: seq<(ModId, Mod)>, b: seq<(ModId, Mod)>)
    ensures Thumbnails(a + b) == Thumbnails(a) + Thumbnails(b)
  {
    if a == [] {
      assert a + b == b;
    } else {
      assert (a + b)[0] == a[0];
      assert (a + b)[1..] == a[1..] + b;
      ThumbnailsAppend(a[1..], b);
    }
  }

  /**
   * The blobs written back, in order, into the mods that have a thumbnail;
   * ids, metadata, descriptions and which mods have a thumbnail stay as they were.
   */
  function WriteBack(window: seq<(ModId, Mod)>, blobs: seq<Blob>): (r: seq<(ModId, Mod)>)
    requires |blobs| == |Thumbnails(window)|
    ensures |r| == |window|
    ensures forall i :: 0 <= i < |window| ==>
      && r[i].0 == window[i].0
      && r[i].1.meta == window[i].1.meta
      && r[i].1.description == window[i].1.description
      && r[i].1.thumbnail.Some? == window[i].1.thumbnail.Some?
  {
    if window == [] then []
    else match window[0].1.thumbnail
      case None => [window[0]] + WriteBack(window[1..], blobs)
      case Some(_) => [(window[0].0, window[0].1.(thumbnail := Some(blobs[0])))] + WriteBack(window[1..], blobs[1..])
  }

  /** Writing blobs back and reading the thumbnails again gives those blobs. */
  lemma {:induction false} ThumbnailsOfWriteBack(window: seq<(ModId, Mod)>, blobs: seq<Blob>)
    requires |blobs| == |Thumbnails(window)|
    ensures Thumbnails(WriteBack(window, blobs)) == blobs
  {
    if window != [] {
      var r := WriteBack(window, blobs);
      match window[0].1.thumbnail
      case None =>
        ThumbnailsOfWriteBack(window[1..], blobs);
        assert r[1..] == WriteBack(window[1..], blobs);
      case Some(_) =>
        ThumbnailsOfWriteBack(window[1..], blobs[1..]);
        assert r[1..] == WriteBack(window[1..], blobs[1..]);
        assert blobs == [blobs[0]] + blobs[1..];
    }
  }

  /** Writing back the thumbnails a window already has changes nothing. */
  lemma {:induction false} WriteBackOfThumbnails(window: seq<(ModId, Mod)>)
    ensures WriteBack(window, Thumbnails(window)) == window
  {
    if window != [] {
      var t := Thumbnails(window);
      WriteBackOfThumbnails(window[1..]);
      match window[0].1.thumbnail
      case None =>
        assert t == Thumbnails(window[1..]);
        assert window == [window[0]] + window[1..];
      case Some(b) =>
        assert t == [b] + Thumbnails(window[1..]);
        assert t[1..] == Thumbnails(window[1..]);
        assert window == [window[0]] + window[1..];
    }
  }

  /** A second write-back replaces the first. */
  lemma {:induction false} WriteBackTwice(window: seq<(ModId, Mod)>, first: seq<Blob>, second: seq<Blob>)
    requires |first| == |Thumbnails(window)| && |second| == |Thumbnails(window)|
    ensures |second| == |Thumbnails(WriteBack(window, first))|
    ensures WriteBack(WriteBack(window, first), second) == WriteBack(window, second)
  {
    ThumbnailsOfWriteBack(window, first);
    if window != [] {
      var mid := WriteBack(window, first);
      match window[0].1.thumbnail
      case None =>
        WriteBackTwice(window[1..], first, second);
        assert mid[1..] == WriteBack(window[1..], first);
      case Some(_) =>
        WriteBackTwice(window[1..], first[1..], second[1..]);
        assert mid[1..] == WriteBack(window[1..], first[1..]);
    }
  }

  /** Splicing a window that keeps each entry's id and meta keeps them everywhere, and keeps all else outside it. */
  lemma SpliceKeeps(mods: seq<(ModId, Mod)>, lo: nat, hi: nat, w: seq<(ModId, Mod)>)
    requires lo <= hi <= |mods| && |w| == hi - lo
    requires forall j :: 0 <= j < |w| ==> w[j].0 == mods[lo..hi][j].0 && w[j].1.meta == mods[lo..hi][j].1.meta
    ensures var r := mods[..lo] + w + mods[hi..];
      && |r| == |mods|
      && (forall i :: 0 <= i < |mods| ==> r[i].0 == mods[i].0 && r[i].1.meta == mods[i].1.meta)
      && (forall i :: 0 <= i < |mods| && !(lo <= i < hi) ==> r[i] == mods[i])
  {
    var r := mods[..lo] + w + mods[hi..];
    forall i | 0 <= i < |mods|
      ensures r[i].0 == mods[i].0 && r[i].1.meta == mods[i].1.meta
      ensures !(lo <= i < hi) ==> r[i] == mods[i]
    {
      if i < lo {
        assert r[i] == mods[..lo][i];
      } else if i < hi {
        assert r[i] == w[i - lo] && mods[lo..hi][i - lo] == mods[i];
      } else {
        assert r[i] == mods[hi..][i - hi];
      }
    }
  }

  /** The mods with the window `[lo, hi)` updated from `blobs`. */
  function UpdateWindow(mods: seq<(ModId, Mod)>, lo: nat, hi: nat, blobs: seq<Blob>): (r: seq<(ModId, Mod)>)
    requires lo <= hi <= |mods| && |blobs| == |Thumbnails(mods[lo..hi])|
    ensures |r| == |mods|
    ensures forall i :: 0 <= i < |mods| ==> r[i].0 == mods[i].0 && r[i].1.meta == mods[i].1.meta
    ensures forall i :: 0 <= i < |mods| && !(lo <= i < hi) ==> r[i] == mods[i]
  {
    var w := WriteBack(mods[lo..hi], blobs);
    SpliceKeeps(mods, lo, hi, w);
    mods[..lo] + w + mods[hi..]
  }

  /** Updating the same window twice leaves what the second update wrote. */
  lemma UpdateWindowTwice(mods: seq<(ModId, Mod)>, lo: nat, hi: nat, first: seq<Blob>, second: seq<Blob>)
    requires lo <= hi <= |mods|
    requires |first| == |Thumbnails(mods[lo..hi])| && |second| == |Thumbnails(mods[lo..hi])|
    ensures UpdateWindow(mods, lo, hi, first)[lo..hi] == WriteBack(mods[lo..hi], first)
    ensures Thumbnails(UpdateWindow(mods, lo, hi, first)[lo..hi]) == first
    ensures UpdateWindow(UpdateWindow(mods, lo, hi, first), lo, hi, second) == UpdateWindow(mods, lo, hi, second)
  {
    var w := mods[lo..hi];
    var mid := UpdateWindow(mods, lo, hi, first);
    assert mid == mods[..lo] + WriteBack(w, first) + mods[hi..];
    assert mid[lo..hi] == WriteBack(w, first);
    assert mid[..lo] == mods[..lo] && mid[hi..] == mods[hi..];
    ThumbnailsOfWriteBack(w, first);
    WriteBackTwice(w, first, second);
  }

  /** The error for a window that starts at or past the end of the index. */
  function OutOfBounds(offset: nat, len: nat): string
  {
    "offset " + NatToString(offset) + " is out of bounds for index with " + NatToString(len) + " mods"
  }

  /** What `lfs::mut_fetch_download_urls` leaves in the blobs, and its error if it failed. */
  datatype Resolved = Resolved(blobs: seq<Blob>, error: Option<string>)

  /** `lfs::mut_fetch_download_urls(blobs, client, concurrency_factor, refresh_urls)`. */
  type UrlResolver = (seq<Blob>, nat, bool) -> Resolved

  /** `lfs::mut_fetch_blobs(blobs, client, concurrency_factor)`. */
  type BlobFetcher = (seq<Blob>, nat) -> seq<Blob>

  /** The `match` on the file name in the `from_zip` loop: set what the file selects on `theMod`. */
  method SetFile(theMod: Mod, id: ModId, kind: FileKind, bytes: seq<byte>, tree: Tree,
                 decodeMeta: MetaDecoder, lossy: LossyDecoder, parse: PointerParser)
    returns (r: Result<Mod>)
    ensures Dispatch(id, kind, bytes, tree, decodeMeta, lossy, parse).Err? ==>
      r == Err(Dispatch(id, kind, bytes, tree, decodeMeta, lossy, parse).error)
    ensures Dispatch(id, kind, bytes, tree, decodeMeta, lossy, parse).Ok? ==>
      r == Ok(Update(Dispatch(id, kind, bytes, tree, decodeMeta, lossy, parse).value, theMod))
  {
    r := Ok(theMod);
    match kind {
      case MetaFile =>
        var meta := decodeMeta(bytes);
        if meta.Err? {
          return Err("couldn't parse mod meta for " + id.name + ": " + meta.error);
        }
        r := Ok(theMod.(meta := meta.value));
      case DescriptionFile =>
        r := Ok(theMod.(description := Some(lossy(bytes))));
      case ThumbnailFile =>
        var pointer := parse(lossy(bytes));
        if pointer.Err? {
          return Err("couldn't parse lfs pointer: " + pointer.error);
        }
        r := Ok(theMod.(thumbnail := Some(NewBlob(pointer.value, tree))));
      case OtherFile =>
    }
  }

  /**
   * The body of the `from_zip` loop for one entry: skip it, or find or create
   * the mod it names and set what it selects, or fail.
   */
  method AddEntry(item: Entry, tree: Tree, decodeMeta: MetaDecoder, lossy: LossyDecoder,
                  parse: PointerParser, mods: map<ModId, Mod>)
    returns (r: Result<map<ModId, Mod>>)
    ensures r.Err? <==> Classify(item, tree, decodeMeta, lossy, parse).Err?
    ensures r.Err? ==> r.error == Classify(item, tree, decodeMeta, lossy, parse).error
    ensures r.Ok? ==> r.value == Perform(Classify(item, tree, decodeMeta, lossy, parse).value, mods)
  {
    var prefix := tree.name + "-" + tree.rev;
    var parts := Split(item.name, '/');
    if !item.isFile || !(|parts| >= 2 && StartsWith(parts[0], prefix) && parts[1] == "mods") {
      return Ok(mods);
    }
    var path := parts[2..];
    if |path| == 0 {
      return Err("path is not pathing");
    }
    var id := ModId(path[0]);
    var theMod := OrDefault(mods, id);
    if |path| < 2 {
      return Err("sub-path is not pathing");
    }
    var updated := SetFile(theMod, id, KindOf(path[1]), item.bytes, tree, decodeMeta, lossy, parse);
    if updated.Err? {
      return Err(updated.error);
    }
    theMod := updated.value;
    return Ok(mods[id := theMod]);
  }

  /** The index of mods, with the repository it was read from. */
  class ModIndex {
    var mods: seq<(ModId, Mod)>
    const repo: Tree

    constructor (mods: seq<(ModId, Mod)>, repo: Tree)
      ensures this.mods == mods && this.repo == repo
    {
      this.mods := mods;
      this.repo := repo;
    }

    /**
     * `from_zip`: one pass over the archive entries that creates and updates
     * mods in a map, then lists the map.
     */
    static method FromZip(entries: seq<Entry>, tree: Tree, decodeMeta: MetaDecoder, lossy: LossyDecoder,
                          parse: PointerParser)
      returns (r: Result<ModIndex>)
      ensures r.Err? <==> IndexMap(entries, tree, decodeMeta, lossy, parse).Err?
      ensures r.Err? ==> r.error == IndexMap(entries, tree, decodeMeta, lossy, parse).error
      ensures r.Ok? ==> (fresh(r.value) && r.value.repo == tree
        && ListsMap(r.value.mods, IndexMap(entries, tree, decodeMeta, lossy, parse).value))
    {
      var mods: map<ModId, Mod> := map[];
      var i := 0;
      while i < |entries|
        invariant 0 <= i <= |entries|
        invariant CollectEntries(entries[i..], tree, decodeMeta, lossy, parse, mods) == IndexMap(entries, tree, decodeMeta, lossy, parse)
      {
        assert entries[i..][0] == entries[i] && entries[i..][1..] == entries[i + 1..];
        var next := AddEntry(entries[i], tree, decodeMeta, lossy, parse, mods);
        if next.Err? {
          return Err(next.error);
        }
        mods := next.value;
        i := i + 1;
      }
      var list := ListMap(mods);
      var index := new ModIndex(list, tree);
      return Ok(index);
    }

    /**
     * `mut_fetch_blob_urls`: resolve the download URLs of the thumbnails of
     * the mods in `[offset, min(offset + count, len))` and return the cursor
     * for the next window.
     */
    method MutFetchBlobUrls(resolve: UrlResolver, concurrencyFactor: nat, offset: nat, count: nat, refreshUrls: bool)
      returns (r: Result<nat>)
      requires forall bs, c, f :: |resolve(bs, c, f).blobs| == |bs|
      modifies this
      ensures offset >= old(|mods|) ==> r == Err(OutOfBounds(offset, old(|mods|))) && mods == old(mods)
      ensures offset < old(|mods|) ==>
        var next := Min(offset + count, old(|mods|));
        var resolved := resolve(Thumbnails(old(mods)[offset..next]), concurrencyFactor, refreshUrls);
        && mods == UpdateWindow(old(mods), offset, next, resolved.blobs)
        && r == (if resolved.error.Some? then Err(resolved.error.value) else Ok(next))
    {
      if offset >= |mods| {
        return Err(OutOfBounds(offset, |mods|));
      }
      var next := Min(offset + count, |mods|);
      var blobs := Thumbnails(mods[offset..next]);
      var resolved := resolve(blobs, concurrencyFactor, refreshUrls);
      mods := UpdateWindow(mods, offset, next, resolved.blobs);
      if resolved.error.Some? {
        return Err(resolved.error.value);
      }
      return Ok(next);
    }

    /**
     * `mut_fetch_blobs`: as `MutFetchBlobUrls`, then download the blobs of the
     * same window; a failed download is recorded in the blob, not returned.
     */
    method MutFetchBlobs(resolve: UrlResolver, fetch: BlobFetcher, concurrencyFactor: nat, offset: nat,
                         count: nat, refreshUrls: bool)
      returns (r: Result<nat>)
      requires forall bs, c, f :: |resolve(bs, c, f).blobs| == |bs|
      requires forall bs, c :: |fetch(bs, c)| == |bs|
      modifies this
      ensures offset >= old(|mods|) ==> r == Err(OutOfBounds(offset, old(|mods|))) && mods == old(mods)
      ensures offset < old(|mods|) ==>
        var next := Min(offset + count, old(|mods|));
        var resolved := resolve(Thumbnails(old(mods)[offset..next]), concurrencyFactor, refreshUrls);
        if resolved.error.Some? then
          mods == UpdateWindow(old(mods), offset, next, resolved.blobs) && r == Err(resolved.error.value)
        else
          mods == UpdateWindow(old(mods), offset, next, fetch(resolved.blobs, concurrencyFactor)) && r == Ok(next)
    {
      if offset >= |mods| {
        return Err(OutOfBounds(offset, |mods|));
      }
      var next := Min(offset + count, |mods|);
      ghost var before := mods;
      var blobs := Thumbnails(mods[offset..next]);
      var resolved := resolve(blobs, concurrencyFactor, refreshUrls);
      mods := UpdateWindow(mods, offset, next, resolved.blobs);
      if resolved.error.Some? {
        return Err(resolved.error.value);
      }
      var fetched := fetch(resolved.blobs, concurrencyFactor);
      UpdateWindowTwice(before, offset, next, resolved.blobs, fetched);
      mods := UpdateWindow(mods, offset, next, fetched);
      return Ok(next);
    }
  }
}
