/**
 * The older mod index (src/mod.rs): GitHub only, thumbnails kept as bare LFS
 * pointers, an index built by stripping a path prefix, and `batch_lfs_on`,
 * which pages through the mods with an offset/count cursor.
 */
module LegacyMods {
  import opened Wrappers
  import opened Text
  import opened Forge
  import opened Lfs
  import Mods

  /** `ModMeta` of this version: the download URL and the version are optional. */
  datatype LegacyModMeta = LegacyModMeta(
    requiresSteamodded: bool,
    requiresTalisman: bool,
    categories: seq<string>,
    author: string,
    repo: string,
    title: string,
    downloadUrl: Option<string>,
    folderName: Option<string>,
    version: Option<string>,
    automaticVersionCheck: bool,
    lastUpdated: Option<nat>)

  const DefaultLegacyMeta: LegacyModMeta := LegacyModMeta(false, false, [], "", "", "", None, None, None, false, None)

  /** A mod of this version: its thumbnail is the parsed pointer itself. */
  datatype LegacyMod = LegacyMod(meta: LegacyModMeta, description: Option<string>, thumbnail: Option<Pointer>)

  const DefaultLegacyMod: LegacyMod := LegacyMod(DefaultLegacyMeta, None, None)

  type ModList = seq<(Mods.ModId, LegacyMod)>

  // =====================================================================
  // batch_lfs_on
  // =====================================================================

  /** The selector `f`: the pointer of a mod that the caller wants, if any. */
  type Selector = LegacyMod -> Option<Pointer>

  /** The pointers `f` selects from a run of mods, in order. */
  function Selected(f: Selector, mods: ModList): (r: seq<Pointer>)
    ensures |r| <= |mods|
  {
    if mods == [] then []
    else
      var last := match f(mods[|mods| - 1].1) case None => [] case Some(p) => [p];
      Selected(f, mods[..|mods| - 1]) + last
  }

  /** A single mod contributes the pointer `f` picks from it, if any. */
  lemma SelectedOne(f: Selector, m: (Mods.ModId, LegacyMod))
    ensures Selected(f, [m]) == if f(m.1).Some? then [f(m.1).value] else []
  {
    assert [m][..0] == [];
  }

  /** Selection distributes over concatenation. */
  lemma {:induction false} SelectedAppend(f: Selector, a: ModList, b: ModList)
    ensures Selected(f, a + b) == Selected(f, a) + Selected(f, b)
    decreases |b|
  {
    if b != [] {
      var ab := a + b;
      assert ab[..|ab| - 1] == a + b[..|b| - 1];
      assert ab[|ab| - 1] == b[|b| - 1];
      SelectedAppend(f, a, b[..|b| - 1]);
    } else {
      assert a + b == a;
    }
  }

  /**
   * `batch_lfs_on` as written: the same window as `BatchPointers`, but the
   * returned cursor is one past the end of the window.
   */
  function BatchLfsOnAsWritten(mods: ModList, f: Selector, offset: nat, count: nat)
    : (r: Result<(seq<Pointer>, nat)>)
    ensures r.Err? <==> offset >= |mods|
    ensures r.Err? ==> r.error == "cursor out of bounds"
    ensures r.Ok? ==>
      var k := Min(count, |mods| - offset);
      r.value.0 == Selected(f, mods[offset..offset + k]) && |r.value.0| <= k
      && r.value.1 == offset + k + 1
  {
    match BatchPointers(mods, offset, count)
    case Err(e) => Err(e)
    case Ok((page, next)) => Ok((Selected(f, page), next + 1))
  }

  /** `batch_lfs_on` with the cursor of `BatchPointers`: the end of the window. */
  function BatchLfsOnCorrected(mods: ModList, f: Selector, offset: nat, count: nat)
    : (r: Result<(seq<Pointer>, nat)>)
    ensures r.Err? <==> offset >= |mods|
    ensures r.Ok? ==>
      var k := Min(count, |mods| - offset);
      r.value.0 == Selected(f, mods[offset..offset + k]) && r.value.1 == offset + k
    ensures r.Ok? ==> BatchLfsOnAsWritten(mods, f, offset, count) == Ok((r.value.0, r.value.1 + 1))
  {
    match BatchPointers(mods, offset, count)
    case Err(e) => Err(e)
    case Ok((page, next)) => Ok((Selected(f, page), next))
  }

  /** The windows visited by feeding the as-written cursor back until it is out of bounds. */
  function AsWrittenWindows(mods: ModList, count: nat, offset: nat): seq<ModList>
    decreases |mods| - offset
  {
    if offset >= |mods| then []
    else
      var k := Min(count, |mods| - offset);
      [mods[offset..offset + k]] + AsWrittenWindows(mods, count, offset + k + 1)
  }

  /**
   * `AsWrittenWindows` is what feeding `BatchLfsOnAsWritten` its own cursor
   * visits: the first window is the page of that call, and the rest start at
   * the cursor it returns.
   */
  lemma AsWrittenWindowsStep(mods: ModList, f: Selector, count: nat, offset: nat)
    requires offset < |mods|
    ensures BatchLfsOnAsWritten(mods, f, offset, count).Ok?
    ensures var next := BatchLfsOnAsWritten(mods, f, offset, count).value.1;
      offset < next <= |mods| + 1
      && AsWrittenWindows(mods, count, offset)
         == [mods[offset..next - 1]] + AsWrittenWindows(mods, count, next)
      && BatchLfsOnAsWritten(mods, f, offset, count).value.0 == Selected(f, mods[offset..next - 1])
  {
    var k := Min(count, |mods| - offset);
    assert BatchLfsOnAsWritten(mods, f, offset, count).value.1 == offset + k + 1;
  }

  /**
   * Following the as-written cursor visits fewer mods than there are as soon
   * as a window ends before the last mod: the mod right after each such
   * window is never visited.
   */
  lemma {:induction false} AsWrittenMissesMods(mods: ModList, count: nat, offset: nat)
    requires offset <= |mods|
    ensures |Flatten(AsWrittenWindows(mods, count, offset))| <= |mods| - offset
    ensures offset + count < |mods| ==> |Flatten(AsWrittenWindows(mods, count, offset))| < |mods| - offset
    decreases |mods| - offset
  {
    if offset < |mods| {
      var k := Min(count, |mods| - offset);
      var ws := AsWrittenWindows(mods, count, offset);
      var rest := AsWrittenWindows(mods, count, offset + k + 1);
      assert ws[1..] == rest;
      if offset + k + 1 <= |mods| {
        AsWrittenMissesMods(mods, count, offset + k + 1);
      } else {
        assert rest == [];
      }
      assert Flatten(ws) == mods[offset..offset + k] + Flatten(rest);
    }
  }

  /** With a count of 1 over three mods, the as-written cursor goes 0, 2 and never visits the mod at index 1. */
  lemma AsWrittenSkipsSecondOfThree(mods: ModList, f: Selector)
    requires |mods| == 3
    ensures BatchLfsOnAsWritten(mods, f, 0, 1) == Ok((Selected(f, mods[..1]), 2))
    ensures BatchLfsOnAsWritten(mods, f, 2, 1) == Ok((Selected(f, mods[2..]), 4))
    ensures BatchLfsOnAsWritten(mods, f, 4, 1).Err?
    ensures AsWrittenWindows(mods, 1, 0) == [mods[..1], mods[2..]]
    ensures BatchLfsOnCorrected(mods, f, 0, 1).value.1 == 1
  {
    assert AsWrittenWindows(mods, 1, 4) == [];
    assert AsWrittenWindows(mods, 1, 2) == [mods[2..3]] + AsWrittenWindows(mods, 1, 4);
    assert AsWrittenWindows(mods, 1, 0) == [mods[0..1]] + AsWrittenWindows(mods, 1, 2);
    assert mods[0..1] == mods[..1] && mods[2..3] == mods[2..];
  }

  /** The pointers gathered page by page. */
  function SelectedPages(f: Selector, pages: seq<ModList>): seq<Pointer>
  {
    if pages == [] then [] else Selected(f, pages[0]) + SelectedPages(f, pages[1..])
  }

  lemma {:induction false} SelectedPagesFlatten(f: Selector, pages: seq<ModList>)
    ensures SelectedPages(f, pages) == Selected(f, Flatten(pages))
  {
    if pages != [] {
      SelectedPagesFlatten(f, pages[1..]);
      SelectedAppend(f, pages[0], Flatten(pages[1..]));
    }
  }

  /**
   * With the corrected cursor, paging from 0 with any positive count gathers
   * exactly the pointers `f` selects from the whole index, in index order.
   */
  lemma CorrectedCoversIndex(mods: ModList, f: Selector, count: nat)
    requires count > 0
    ensures SelectedPages(f, Chunks(mods, count, 0)) == Selected(f, mods)
  {
    ChunksConcat(mods, count, 0);
    SelectedPagesFlatten(f, Chunks(mods, count, 0));
    assert mods[0..] == mods;
  }

  // =====================================================================
  // from_zip (prefix-stripping version)
  // =====================================================================

  /** The directory of the mods inside the archive of `tree`. */
  function ModsPrefix(tree: GitHubTree): string
  {
    tree.name + "-" + tree.rev + "/mods/"
  }

  /** An entry is looked at only if it is a file under the mods directory. */
  predicate LegacyConsidered(e: Mods.Entry, tree: GitHubTree)
  {
    e.isFile && StartsWith(e.name, ModsPrefix(tree))
  }

  /** The path components after every leading copy of the prefix is stripped. */
  function PathParts(e: Mods.Entry, tree: GitHubTree): (r: seq<string>)
    ensures |r| >= 1
  {
    Split(TrimStartMatches(e.name, ModsPrefix(tree)), '/')
  }

  /** `ModMeta::from_slice` of this version. */
  type LegacyMetaDecoder = seq<byte> -> Result<LegacyModMeta>

  datatype LegacyAction =
    | Skip
    | Touch(id: Mods.ModId)
    | SetMeta(id: Mods.ModId, meta: LegacyModMeta)
    | SetDescription(id: Mods.ModId, text: string)
    | SetThumbnail(id: Mods.ModId, pointer: Pointer)

  /** What the file selected by `kind` sets on the mod `id`, given the file's bytes. */
  function LegacyDispatch(id: Mods.ModId, kind: Mods.FileKind, bytes: seq<byte>, decodeMeta: LegacyMetaDecoder,
                          lossy: Mods.LossyDecoder, parse: Mods.PointerParser): (r: Result<LegacyAction>)
    ensures r.Ok? ==> !r.value.Skip? && r.value.id == id
  {
    match kind
    case MetaFile =>
      (match decodeMeta(bytes)
       case Err(err) => Err("couldn't parse mod meta for " + id.name + ": " + err)
       case Ok(meta) => Ok(SetMeta(id, meta)))
    case DescriptionFile => Ok(SetDescription(id, lossy(bytes)))
    case ThumbnailFile =>
      (match parse(lossy(bytes))
       case Err(err) => Err("couldn't parse lfs pointer: " + err)
       case Ok(pointer) => Ok(SetThumbnail(id, pointer)))
    case OtherFile => Ok(Touch(id))
  }

  /**
   * The rules for one entry: the first component after the prefix names the
   * mod (a split always has one), the second selects what is set.
   */
  function LegacyClassify(e: Mods.Entry, tree: GitHubTree, decodeMeta: LegacyMetaDecoder, lossy: Mods.LossyDecoder,
                          parse: Mods.PointerParser)
    : Result<LegacyAction>
  {
    if !LegacyConsidered(e, tree) then Ok(Skip)
    else
      var parts := PathParts(e, tree);
      var id := Mods.ModId(parts[0]);
      if |parts| < 2 then Err("sub-path is not pathing")
      else LegacyDispatch(id, Mods.KindOf(parts[1]), e.bytes, decodeMeta, lossy, parse)
  }

  function LegacyOrDefault(mods: map<Mods.ModId, LegacyMod>, id: Mods.ModId): LegacyMod
  {
    if id in mods then mods[id] else DefaultLegacyMod
  }

  /** The mod with the field an action selects set. */
  function LegacyUpdate(action: LegacyAction, m: LegacyMod): LegacyMod
  {
    match action
    case Skip => m
    case Touch(_) => m
    case SetMeta(_, meta) => m.(meta := meta)
    case SetDescription(_, text) => m.(description := Some(text))
    case SetThumbnail(_, pointer) => m.(thumbnail := Some(pointer))
  }

  /** An action finds or creates the mod it names and updates it. */
  function LegacyPerform(action: LegacyAction, mods: map<Mods.ModId, LegacyMod>): map<Mods.ModId, LegacyMod>
  {
    if action.Skip? then mods else mods[action.id := LegacyUpdate(action, LegacyOrDefault(mods, action.id))]
  }

  /** One entry applied to the mods read so far, or its error. */
  function LegacyStep(e: Mods.Entry, tree: GitHubTree, decodeMeta: LegacyMetaDecoder, lossy: Mods.LossyDecoder,
                      parse: Mods.PointerParser,
                      mods: map<Mods.ModId, LegacyMod>): Result<map<Mods.ModId, LegacyMod>>
  {
    match LegacyClassify(e, tree, decodeMeta, lossy, parse)
    case Err(err) => Err(err)
    case Ok(action) => Ok(LegacyPerform(action, mods))
  }

  function LegacyCollect(entries: seq<Mods.Entry>, tree: GitHubTree, decodeMeta: LegacyMetaDecoder,
                         lossy: Mods.LossyDecoder, parse: Mods.PointerParser, mods: map<Mods.ModId, LegacyMod>)
    : Result<map<Mods.ModId, LegacyMod>>
  {
    if entries == [] then Ok(mods)
    else match LegacyStep(entries[0], tree, decodeMeta, lossy, parse, mods)
      case Err(e) => Err(e)
      case Ok(next) => LegacyCollect(entries[1..], tree, decodeMeta, lossy, parse, next)
  }

  function LegacyIndexMap(entries: seq<Mods.Entry>, tree: GitHubTree, decodeMeta: LegacyMetaDecoder,
                          lossy: Mods.LossyDecoder, parse: Mods.PointerParser)
    : Result<map<Mods.ModId, LegacyMod>>
  {
    LegacyCollect(entries, tree, decodeMeta, lossy, parse, map[])
  }

  /**
   * Stripping is `trim_start_matches`: a doubled prefix is stripped as a
   * whole, so an entry under `{prefix}{prefix}` acts as the same entry
   * without the repetition.
   */
  lemma DoubledPrefixStripped(e: Mods.Entry, tree: GitHubTree)
    requires e.isFile
    ensures var p := ModsPrefix(tree);
      var single := Mods.Entry(p + e.name, true, e.bytes);
      var doubled := Mods.Entry(p + (p + e.name), true, e.bytes);
      PathParts(doubled, tree) == PathParts(single, tree)
  {
    var p := ModsPrefix(tree);
    AffixesOfConcat(p, p + e.name);
    assert (p + (p + e.name))[|p|..] == p + e.name;
  }

  /**
   * The mod an accepted considered entry acts on is the first component
   * after the prefix; the "path is not pathing" error cannot arise here.
   */
  lemma LegacyClassifyNames(e: Mods.Entry, tree: GitHubTree, decodeMeta: LegacyMetaDecoder, lossy: Mods.LossyDecoder,
                            parse: Mods.PointerParser)
    ensures !LegacyConsidered(e, tree) ==> LegacyClassify(e, tree, decodeMeta, lossy, parse) == Ok(Skip)
    ensures LegacyConsidered(e, tree) && LegacyClassify(e, tree, decodeMeta, lossy, parse).Ok? ==>
      var action := LegacyClassify(e, tree, decodeMeta, lossy, parse).value;
      !action.Skip? && action.id == Mods.ModId(PathParts(e, tree)[0]) && |PathParts(e, tree)| >= 2
    ensures LegacyConsidered(e, tree) && |PathParts(e, tree)| < 2 ==>
      LegacyClassify(e, tree, decodeMeta, lossy, parse) == Err("sub-path is not pathing")
  {
    if LegacyConsidered(e, tree) {
      var parts := PathParts(e, tree);
      if |parts| >= 2 {
        assert LegacyClassify(e, tree, decodeMeta, lossy, parse).Ok? ==>
          LegacyClassify(e, tree, decodeMeta, lossy, parse).value.id == Mods.ModId(parts[0]);
      }
    }
  }

  /**
   * With the real pointer parser, a thumbnail file that parses sets the
   * mod's thumbnail to that pointer, and one that does not rejects the entry.
   */
  lemma LegacyThumbnailParsed(e: Mods.Entry, tree: GitHubTree, decodeMeta: LegacyMetaDecoder, lossy: Mods.LossyDecoder)
    requires LegacyConsidered(e, tree) && |PathParts(e, tree)| >= 2
    requires Mods.KindOf(PathParts(e, tree)[1]) == Mods.ThumbnailFile
    ensures Parse(lossy(e.bytes)).Err? ==>
      LegacyClassify(e, tree, decodeMeta, lossy, Parse) == Err("couldn't parse lfs pointer: " + Parse(lossy(e.bytes)).error)
    ensures Parse(lossy(e.bytes)).Ok? ==>
      LegacyClassify(e, tree, decodeMeta, lossy, Parse)
        == Ok(SetThumbnail(Mods.ModId(PathParts(e, tree)[0]), Parse(lossy(e.bytes)).value))
  {
  }

  /**
   * The action each file name yields in this version: `meta.json` must decode
   * and sets the meta, `description.md` sets the description, a thumbnail
   * must hold an LFS pointer and stores it, and any other name only makes
   * sure the mod exists.
   */
  lemma LegacyDispatchByName(id: Mods.ModId, name: string, bytes: seq<byte>, decodeMeta: LegacyMetaDecoder,
                             lossy: Mods.LossyDecoder, parse: Mods.PointerParser)
    ensures name == "meta.json" && decodeMeta(bytes).Err? ==>
      LegacyDispatch(id, Mods.KindOf(name), bytes, decodeMeta, lossy, parse)
        == Err("couldn't parse mod meta for " + id.name + ": " + decodeMeta(bytes).error)
    ensures name == "meta.json" && decodeMeta(bytes).Ok? ==>
      LegacyDispatch(id, Mods.KindOf(name), bytes, decodeMeta, lossy, parse) == Ok(SetMeta(id, decodeMeta(bytes).value))
    ensures name == "description.md" ==>
      LegacyDispatch(id, Mods.KindOf(name), bytes, decodeMeta, lossy, parse) == Ok(SetDescription(id, lossy(bytes)))
    ensures (name == "thumbnail.jpg" || name == "thumbnail.png") && parse(lossy(bytes)).Err? ==>
      LegacyDispatch(id, Mods.KindOf(name), bytes, decodeMeta, lossy, parse) == Err("couldn't parse lfs pointer: " + parse(lossy(bytes)).error)
    ensures (name == "thumbnail.jpg" || name == "thumbnail.png") && parse(lossy(bytes)).Ok? ==>
      LegacyDispatch(id, Mods.KindOf(name), bytes, decodeMeta, lossy, parse) == Ok(SetThumbnail(id, parse(lossy(bytes)).value))
    ensures name != "meta.json" && name != "description.md" && name != "thumbnail.jpg" && name != "thumbnail.png" ==>
      LegacyDispatch(id, Mods.KindOf(name), bytes, decodeMeta, lossy, parse) == Ok(Touch(id))
  {
  }

  /** A considered entry with a second component is dispatched on it, for the mod its first names. */
  lemma LegacyClassifyDispatches(e: Mods.Entry, tree: GitHubTree, decodeMeta: LegacyMetaDecoder, lossy: Mods.LossyDecoder,
                                 parse: Mods.PointerParser)
    requires LegacyConsidered(e, tree) && |PathParts(e, tree)| >= 2
    ensures LegacyClassify(e, tree, decodeMeta, lossy, parse)
      == LegacyDispatch(Mods.ModId(PathParts(e, tree)[0]), Mods.KindOf(PathParts(e, tree)[1]), e.bytes, decodeMeta, lossy, parse)
  {
  }

  /** The archive is rejected exactly when one of its entries is. */
  lemma {:induction false} LegacyCollectFailsIff(entries: seq<Mods.Entry>, tree: GitHubTree,
                                                decodeMeta: LegacyMetaDecoder, lossy: Mods.LossyDecoder,
                                                parse: Mods.PointerParser,
                                                mods: map<Mods.ModId, LegacyMod>)
    ensures LegacyCollect(entries, tree, decodeMeta, lossy, parse, mods).Err? <==>
      exists i :: 0 <= i < |entries| && LegacyClassify(entries[i], tree, decodeMeta, lossy, parse).Err?
  {
    if entries != [] {
      match LegacyClassify(entries[0], tree, decodeMeta, lossy, parse)
      case Err(_) =>
      case Ok(action) =>
        LegacyCollectFailsIff(entries[1..], tree, decodeMeta, lossy, parse, LegacyPerform(action, mods));
        if exists i :: 0 <= i < |entries| && LegacyClassify(entries[i], tree, decodeMeta, lossy, parse).Err? {
          var i :| 0 <= i < |entries| && LegacyClassify(entries[i], tree, decodeMeta, lossy, parse).Err?;
          assert entries[1..][i - 1] == entries[i];
        }
        if exists i :: 0 <= i < |entries| - 1 && LegacyClassify(entries[1..][i], tree, decodeMeta, lossy, parse).Err? {
          var i :| 0 <= i < |entries| - 1 && LegacyClassify(entries[1..][i], tree, decodeMeta, lossy, parse).Err?;
          assert entries[i + 1] == entries[1..][i];
        }
    }
  }

  /** The mod an entry names once the prefix is stripped. */
  predicate LegacyNames(e: Mods.Entry, tree: GitHubTree, id: Mods.ModId)
  {
    LegacyConsidered(e, tree) && id == Mods.ModId(PathParts(e, tree)[0])
  }

  lemma LegacyStepKeys(e: Mods.Entry, tree: GitHubTree, decodeMeta: LegacyMetaDecoder, lossy: Mods.LossyDecoder,
                       parse: Mods.PointerParser,
                       mods: map<Mods.ModId, LegacyMod>)
    requires LegacyClassify(e, tree, decodeMeta, lossy, parse).Ok?
    ensures forall id :: id in LegacyPerform(LegacyClassify(e, tree, decodeMeta, lossy, parse).value, mods) <==>
      id in mods || LegacyNames(e, tree, id)
  {
    LegacyClassifyNames(e, tree, decodeMeta, lossy, parse);
  }

  /** The mods of a successfully read archive are exactly the ones some considered entry names. */
  lemma {:induction false} LegacyCollectKeys(entries: seq<Mods.Entry>, tree: GitHubTree,
                                            decodeMeta: LegacyMetaDecoder, lossy: Mods.LossyDecoder,
                                            parse: Mods.PointerParser,
                                            mods: map<Mods.ModId, LegacyMod>)
    requires LegacyCollect(entries, tree, decodeMeta, lossy, parse, mods).Ok?
    ensures forall id :: id in LegacyCollect(entries, tree, decodeMeta, lossy, parse, mods).value <==>
      id in mods || exists i :: 0 <= i < |entries| && LegacyNames(entries[i], tree, id)
  {
    if entries != [] {
      var action := LegacyClassify(entries[0], tree, decodeMeta, lossy, parse).value;
      var next := LegacyPerform(action, mods);
      var tail := entries[1..];
      LegacyCollectKeys(tail, tree, decodeMeta, lossy, parse, next);
      LegacyStepKeys(entries[0], tree, decodeMeta, lossy, parse, mods);
      var r := LegacyCollect(entries, tree, decodeMeta, lossy, parse, mods).value;
      assert r == LegacyCollect(tail, tree, decodeMeta, lossy, parse, next).value;
      forall id
        ensures id in r <==> id in mods || exists i :: 0 <= i < |entries| && LegacyNames(entries[i], tree, id)
      {
        if exists i :: 0 <= i < |entries| && LegacyNames(entries[i], tree, id) {
          var i :| 0 <= i < |entries| && LegacyNames(entries[i], tree, id);
          if i > 0 {
            assert tail[i - 1] == entries[i];
          }
        }
        if exists i :: 0 <= i < |tail| && LegacyNames(tail[i], tree, id) {
          var i :| 0 <= i < |tail| && LegacyNames(tail[i], tree, id);
          assert entries[i + 1] == tail[i];
        }
      }
    }
  }

  /** The `match` on the file name in the legacy `from_zip` loop: set what the file selects on `theMod`. */
  method LegacySetFile(theMod: LegacyMod, id: Mods.ModId, kind: Mods.FileKind, bytes: seq<byte>,
                       decodeMeta: LegacyMetaDecoder, lossy: Mods.LossyDecoder, parse: Mods.PointerParser)
    returns (r: Result<LegacyMod>)
    ensures LegacyDispatch(id, kind, bytes, decodeMeta, lossy, parse).Err? ==>
      r == Err(LegacyDispatch(id, kind, bytes, decodeMeta, lossy, parse).error)
    ensures LegacyDispatch(id, kind, bytes, decodeMeta, lossy, parse).Ok? ==>
      r == Ok(LegacyUpdate(LegacyDispatch(id, kind, bytes, decodeMeta, lossy, parse).value, theMod))
  {
    r := Ok(theMod);
    match kind {
      case MetaFile =>
        var meta := decodeMeta(bytes);
        if meta.Err? {
          return Err("couldn't parse mod meta for " + id.name + ": " + meta.error);
        }
        r := Ok(theMod.(meta := meta.value));
      case DescriptionFile =>
        r := Ok(theMod.(description := Some(lossy(bytes))));
      case ThumbnailFile =>
        var pointer := parse(lossy(bytes));
        if pointer.Err? {
          return Err("couldn't parse lfs pointer: " + pointer.error);
        }
        r := Ok(theMod.(thumbnail := Some(pointer.value)));
      case OtherFile =>
    }
  }

  /** The body of the legacy `from_zip` loop for one entry. */
  method LegacyAddEntry(item: Mods.Entry, tree: GitHubTree, decodeMeta: LegacyMetaDecoder, lossy: Mods.LossyDecoder,
                        parse: Mods.PointerParser,
                        mods: map<Mods.ModId, LegacyMod>)
    returns (r: Result<map<Mods.ModId, LegacyMod>>)
    ensures r == LegacyStep(item, tree, decodeMeta, lossy, parse, mods)
  {
    var prefix := ModsPrefix(tree);
    if !item.isFile || !StartsWith(item.name, prefix) {
      return Ok(mods);
    }
    var path := TrimStartMatches(item.name, prefix);
    var parts := Split(path, '/');
    assert LegacyConsidered(item, tree) && parts == PathParts(item, tree);
    var id := Mods.ModId(parts[0]);
    var theMod := LegacyOrDefault(mods, id);
    if |parts| < 2 {
      return Err("sub-path is not pathing");
    }
    var updated := LegacySetFile(theMod, id, Mods.KindOf(parts[1]), item.bytes, decodeMeta, lossy, parse);
    if updated.Err? {
      return Err(updated.error);
    }
    theMod := updated.value;
    return Ok(mods[id := theMod]);
  }

  // =====================================================================
  // from_reqwest: the archive URL
  // =====================================================================

  /** The archive URL of this version: always GitHub's branch archive. */
  function LegacyArchiveUrl(tree: GitHubTree): (url: string)
    ensures url == Mods.ArchiveUrl(Tree(tree.hostname, tree.namespace, tree.name, tree.rev, GitHub))
  {
    "https://" + tree.hostname + "/" + tree.namespace + "/" + tree.name + "/archive/refs/heads/" + tree.rev + ".zip"
  }

  /** The older index: a list of mods and the GitHub repository it was read from. */
  class LegacyModIndex {
    var mods: ModList
    const repo: GitHubTree

    constructor (mods: ModList, repo: GitHubTree)
      ensures this.mods == mods && this.repo == repo
    {
      this.mods := mods;
      this.repo := repo;
    }

    /**
     * `batch_lfs_on`: the pointers `f` selects from the window of at most
     * `count` mods at `offset`, and the cursor as written (see
     * `BatchLfsOnAsWritten`).
     */
    method BatchLfsOn(f: Selector, offset: nat, count: nat) returns (r: Result<(seq<Pointer>, nat)>)
      ensures r == BatchLfsOnAsWritten(mods, f, offset, count)
    {
      if offset >= |mods| {
        return Err("cursor out of bounds");
      }
      var k := Min(count, |mods| - offset);
      var pointers: seq<Pointer> := [];
      var j := 0;
      while j < k
        invariant 0 <= j <= k
        invariant pointers == Selected(f, mods[offset..offset + j])
      {
        assert mods[offset..offset + j + 1][..j] == mods[offset..offset + j];
        var p := f(mods[offset + j].1);
        if p.Some? {
          pointers := pointers + [p.value];
        }
        j := j + 1;
      }
      return Ok((pointers, offset + k + 1));
    }

    /**
     * The legacy `from_zip`: one pass over the archive entries that creates
     * and updates mods in a map, then lists the map.
     */
    static method FromZip(entries: seq<Mods.Entry>, tree: GitHubTree, decodeMeta: LegacyMetaDecoder,
                          lossy: Mods.LossyDecoder, parse: Mods.PointerParser)
      returns (r: Result<LegacyModIndex>)
      ensures r.Err? <==> LegacyIndexMap(entries, tree, decodeMeta, lossy, parse).Err?
      ensures r.Err? ==> r.error == LegacyIndexMap(entries, tree, decodeMeta, lossy, parse).error
      ensures r.Ok? ==> (fresh(r.value) && r.value.repo == tree
        && Mods.ListsMap(r.value.mods, LegacyIndexMap(entries, tree, decodeMeta, lossy, parse).value))
    {
      var mods: map<Mods.ModId, LegacyMod> := map[];
      var i := 0;
      while i < |entries|
        invariant 0 <= i <= |entries|
        invariant LegacyCollect(entries[i..], tree, decodeMeta, lossy, parse, mods)
               == LegacyIndexMap(entries, tree, decodeMeta, lossy, parse)
      {
        assert entries[i..][0] == entries[i] && entries[i..][1..] == entries[i + 1..];
        var next := LegacyAddEntry(entries[i], tree, decodeMeta, lossy, parse, mods);
        if next.Err? {
          return Err(next.error);
        }
        mods := next.value;
        i := i + 1;
      }
      var list := Mods.ListMap(mods);
      var index := new LegacyModIndex(list, tree);
      return Ok(index);
    }
  }
}
