/**
 * Git LFS support (src/lfs.rs): the pointer-file parser, the offset/count
 * cursor over a list of pointers, the chunked batch-API resolution loop and
 * the aggregation of concurrent downloads.
 *
 * The network is a parameter: a batch `Server` answers one POST with a `Reply`,
 * and a `Fetch` answers one GET. JSON decoding is folded into the `Reply`.
 */
module Lfs {
  import opened Wrappers
  import opened Text
  import opened Forge

  /** A parsed pointer file: the content hash and the declared byte size. */
  datatype Pointer = Pointer(oid: string, size: nat)

  /** `Pointer::default()`. */
  const DefaultPointer: Pointer := Pointer("", 0)

  const VERSION: string := "https://git-lfs.github.com/spec/v1"
  const HASH_ALGO: string := "sha256"
  /** `GH_API_UNAUTHENTICATED_BATCH_OBJECT_LIMIT`: pointers per batch request. */
  const BATCH_OBJECT_LIMIT: nat := 100

  // =====================================================================
  // parse_pointer
  // =====================================================================

  /**
   * The value of an `oid` line split on ':': the first piece must be the
   * hash algorithm, the second piece is the oid, further pieces are ignored.
   */
  function OidValue(value: string): Result<string>
  {
    var parts := Split(value, ':');
    if parts[0] != HASH_ALGO then Err("lfs hash algorithm is not sha256")
    else if |parts| < 2 then Err("oid missing")
    else Ok(parts[1])
  }

  /** What an accepted line does to the pointer being built. */
  datatype Effect = Keep | SetOid(oid: string) | SetSize(size: nat)

  /**
   * The rules for one line: it must be `key value` once trimmed; a `version`
   * must be exactly the v1 URL, an `oid` must name sha256, a `size` must be a
   * usize; any other key is ignored.
   */
  function Interpret(line: string): Result<Effect>
  {
    match SplitOnce(Trim(line), ' ')
    case None => Err("line is not a key-value pair")
    case Some((key, value)) =>
      if key == "version" then
        if value != VERSION then Err("unexpected lfs api version: \"" + value + "\"") else Ok(Keep)
      else if key == "oid" then
        match OidValue(value)
        case Err(e) => Err(e)
        case Ok(oid) => Ok(SetOid(oid))
      else if key == "size" then
        match ParseUsize(value)
        case None => Err("couldn't parse size")
        case Some(n) => Ok(SetSize(n))
      else Ok(Keep)
  }

  function Apply(effect: Effect, p: Pointer): Pointer
  {
    match effect
    case Keep => p
    case SetOid(oid) => p.(oid := oid)
    case SetSize(size) => p.(size := size)
  }

  /** The lines applied in order to the pointer built so far; the first rejected line ends the parse. */
  function ParseLines(lines: seq<string>, p: Pointer): Result<Pointer>
  {
    if lines == [] then Ok(p)
    else match Interpret(lines[0])
      case Err(e) => Err(e)
      case Ok(effect) => ParseLines(lines[1..], Apply(effect, p))
  }

  /** The meaning of `parse_pointer(input)`. */
  function Parse(input: string): Result<Pointer>
  {
    ParseLines(Lines(input), DefaultPointer)
  }

  /** One pass of the `parse_pointer` loop: the line's key decides what it updates or why it fails. */
  method ReadLine(line: string, pointer: Pointer) returns (r: Result<Pointer>)
    ensures Interpret(line).Err? ==> r == Err(Interpret(line).error)
    ensures Interpret(line).Ok? ==> r == Ok(Apply(Interpret(line).value, pointer))
  {
    var kv := SplitOnce(Trim(line), ' ');
    if kv.None? {
      NoPairRejected(line);
      return Err("line is not a key-value pair");
    }
    var (key, value) := kv.value;
    if key == "version" {
      VersionLine(line, value);
      if value != VERSION {
        return Err("unexpected lfs api version: \"" + value + "\"");
      }
      return Ok(pointer);
    } else if key == "oid" {
      OidLine(line, value);
      var parts := Split(value, ':');
      if parts[0] != HASH_ALGO {
        return Err("lfs hash algorithm is not sha256");
      }
      if |parts| < 2 {
        return Err("oid missing");
      }
      assert OidValue(value) == Ok(parts[1]);
      return Ok(pointer.(oid := parts[1]));
    } else if key == "size" {
      SizeLine(line, value);
      var size := ParseUsize(value);
      if size.None? {
        return Err("couldn't parse size");
      }
      return Ok(pointer.(size := size.value));
    }
    UnknownKeyIgnored(line, key, value);
    return Ok(pointer);
  }

  /** `parse_pointer`: a loop over the lines that updates a default pointer in place. */
  method ParsePointer(input: string) returns (r: Result<Pointer>)
    ensures r == Parse(input)
  {
    var pointer := DefaultPointer;
    var lines := Lines(input);
    var i := 0;
    while i < |lines|
      invariant 0 <= i <= |lines|
      invariant ParseLines(lines[i..], pointer) == Parse(input)
    {
      assert lines[i..][0] == lines[i] && lines[i..][1..] == lines[i + 1..];
      var next := ReadLine(lines[i], pointer);
      if next.Err? {
        return Err(next.error);
      }
      pointer := next.value;
      i := i + 1;
    }
    return Ok(pointer);
  }

  /** The key and value of a line, if it has the `key value` shape at all. */
  function KeyValue(line: string): Option<(string, string)>
  {
    SplitOnce(Trim(line), ' ')
  }

  predicate Rejected(line: string)
  {
    Interpret(line).Err?
  }

  /** The oid an accepted line sets, if it is an `oid` line. */
  function OidSetBy(line: string): Option<string>
  {
    match Interpret(line)
    case Ok(SetOid(oid)) => Some(oid)
    case _ => None
  }

  /** The size an accepted line sets, if it is a `size` line. */
  function SizeSetBy(line: string): Option<nat>
  {
    match Interpret(line)
    case Ok(SetSize(size)) => Some(size)
    case _ => None
  }

  /**
   * An `oid` value is accepted exactly when it starts with "sha256:"; the oid
   * is then the text after that up to the next ':' (or the end). The value
   * "sha256" alone is the "oid missing" case.
   */
  lemma OidValueSpec(value: string)
    ensures OidValue(value).Ok? <==> StartsWith(value, "sha256:")
    ensures OidValue(value) == Err("oid missing") <==> value == "sha256"
    ensures OidValue(value).Ok? ==>
      var oid := OidValue(value).value;
      ':' !in oid && StartsWith(value, "sha256:" + oid)
      && (|value| == 7 + |oid| || value[7 + |oid|] == ':')
  {
    if StartsWith(value, "sha256:") {
      var rest := value[7..];
      assert value == "sha256:" + rest by {
        assert value == value[..7] + rest;
      }
      OidValueOfPrefixed(rest);
      FirstPiece(rest, ':');
      var oid := Split(rest, ':')[0];
      assert StartsWith(value, "sha256:" + oid) by {
        assert value[..7 + |oid|] == "sha256:" + rest[..|oid|];
      }
    } else {
      OidValueRejects(value);
    }
  }

  lemma OidValueOfPrefixed(rest: string)
    ensures OidValue("sha256:" + rest) == Ok(Split(rest, ':')[0])
  {
    var value := "sha256:" + rest;
    assert value == "sha256" + [':'] + rest;
    SplitOnceOf("sha256", ':', rest);
    SplitFirst(value, ':');
    SplitFirst(rest, ':');
  }

  /** The first piece of a split runs up to the first separator or the end. */
  lemma FirstPiece(s: string, c: char)
    ensures var first := Split(s, c)[0];
      c !in first && StartsWith(s, first) && (|s| == |first| || s[|first|] == c)
  {
    SplitFirst(s, c);
    match SplitOnce(s, c)
    case None =>
    case Some((a, b)) =>
      assert s == a + [c] + b;
      assert s[..|a|] == a;
  }

  lemma AlgoPrefix(rest: string)
    ensures StartsWith(HASH_ALGO + [':'] + rest, "sha256:")
  {
    assert (HASH_ALGO + [':'] + rest)[..7] == HASH_ALGO + [':'];
  }

  lemma OidValueRejects(value: string)
    requires !StartsWith(value, "sha256:")
    ensures OidValue(value).Err?
    ensures OidValue(value) == Err("oid missing") <==> value == "sha256"
  {
    if ':' in value {
      OtherAlgoRejected(value);
      assert value != "sha256" by { assert ':' !in "sha256"; }
    } else {
      NoColonRejected(value);
    }
  }

  /** A value with a ':' that does not start with "sha256:" names another algorithm. */
  lemma OtherAlgoRejected(value: string)
    requires ':' in value && !StartsWith(value, "sha256:")
    ensures OidValue(value) == Err("lfs hash algorithm is not sha256")
  {
    SplitFirst(value, ':');
    var (a, b) := SplitOnce(value, ':').value;
    assert Split(value, ':')[0] == a;
    assert a != HASH_ALGO by { AlgoPrefix(b); }
  }

  /** A value without a ':' is the algorithm alone: "sha256" misses the oid, anything else is rejected. */
  lemma NoColonRejected(value: string)
    requires ':' !in value
    ensures OidValue(value) == if value == HASH_ALGO then Err("oid missing") else Err("lfs hash algorithm is not sha256")
  {
    SplitFirst(value, ':');
    assert Split(value, ':') == [value];
  }

  /** A `version` line is accepted only with exactly the v1 specification URL, and changes nothing. */
  lemma VersionLine(line: string, value: string)
    requires KeyValue(line) == Some(("version", value))
    ensures Interpret(line).Ok? <==> value == VERSION
    ensures Interpret(line).Ok? ==> Interpret(line) == Ok(Keep)
    ensures value != VERSION ==> Interpret(line) == Err("unexpected lfs api version: \"" + value + "\"")
  {
  }

  /** An `oid` line sets the oid exactly when its value starts with "sha256:". */
  lemma OidLine(line: string, value: string)
    requires KeyValue(line) == Some(("oid", value))
    ensures Interpret(line).Ok? <==> StartsWith(value, "sha256:")
    ensures Interpret(line).Ok? ==> Interpret(line) == Ok(SetOid(OidValue(value).value))
    ensures value == "sha256" ==> Interpret(line) == Err("oid missing")
    ensures OidValue(value).Err? ==> Interpret(line) == Err(OidValue(value).error)
  {
    OidValueSpec(value);
  }

  /** A `size` line sets the size exactly when its value parses as a usize. */
  lemma SizeLine(line: string, value: string)
    requires KeyValue(line) == Some(("size", value))
    ensures Interpret(line).Ok? <==> ParseUsize(value).Some?
    ensures Interpret(line).Ok? ==> Interpret(line) == Ok(SetSize(ParseUsize(value).value))
    ensures ParseUsize(value).None? ==> Interpret(line) == Err("couldn't parse size")
  {
  }

  /** A line without a space between non-blank text is not a key-value pair. */
  lemma NoPairRejected(line: string)
    requires KeyValue(line).None?
    ensures Interpret(line) == Err("line is not a key-value pair")
  {
  }

  /** A line that is blank, or only whitespace, is not a key-value pair. */
  lemma BlankLineRejected(line: string)
    requires forall i :: 0 <= i < |line| ==> IsWhitespace(line[i])
    ensures Interpret(line) == Err("line is not a key-value pair")
  {
    assert TrimStart(line) == [];
  }

  /** A line with an unknown key is skipped. */
  lemma UnknownKeyIgnored(line: string, key: string, value: string)
    requires KeyValue(line) == Some((key, value))
    requires key != "version" && key != "oid" && key != "size"
    ensures Interpret(line) == Ok(Keep)
  {
  }

  /** A pointer file is rejected exactly when one of its lines is. */
  lemma {:induction false} ParseRejectsIff(lines: seq<string>, p: Pointer)
    ensures ParseLines(lines, p).Err? <==> exists i :: 0 <= i < |lines| && Rejected(lines[i])
  {
    if lines != [] {
      match Interpret(lines[0])
      case Err(_) =>
      case Ok(effect) =>
        ParseRejectsIff(lines[1..], Apply(effect, p));
        if exists i :: 0 <= i < |lines| && Rejected(lines[i]) {
          var i :| 0 <= i < |lines| && Rejected(lines[i]);
          assert i > 0;
          assert lines[1..][i - 1] == lines[i];
        }
        if exists i :: 0 <= i < |lines| - 1 && Rejected(lines[1..][i]) {
          var i :| 0 <= i < |lines| - 1 && Rejected(lines[1..][i]);
          assert lines[i + 1] == lines[1..][i];
        }
    }
  }

  /** No key is required: a missing oid or size keeps the value it had (`""` and `0` at the start). */
  predicate NoOidLine(lines: seq<string>)
  {
    forall i :: 0 <= i < |lines| ==> OidSetBy(lines[i]).None?
  }

  predicate NoSizeLine(lines: seq<string>)
  {
    forall i :: 0 <= i < |lines| ==> SizeSetBy(lines[i]).None?
  }

  /** An accepted first line is applied, and parsing continues with the remaining lines. */
  lemma ParseStep(lines: seq<string>, p: Pointer)
    requires lines != [] && ParseLines(lines, p).Ok?
    ensures Interpret(lines[0]).Ok?
    ensures ParseLines(lines, p) == ParseLines(lines[1..], Apply(Interpret(lines[0]).value, p))
    ensures Apply(Interpret(lines[0]).value, p).oid == if OidSetBy(lines[0]).Some? then OidSetBy(lines[0]).value else p.oid
    ensures Apply(Interpret(lines[0]).value, p).size == if SizeSetBy(lines[0]).Some? then SizeSetBy(lines[0]).value else p.size
  {
  }

  /**
   * Keys may repeat and appear in any order: in an accepted file the oid is
   * the one set by the LAST `oid` line, and it keeps its starting value if no
   * line sets it.
   */
  lemma {:induction false} ParseLastOidWins(lines: seq<string>, p: Pointer)
    requires ParseLines(lines, p).Ok?
    ensures NoOidLine(lines) ==> ParseLines(lines, p).value.oid == p.oid
    ensures forall i :: 0 <= i < |lines| && OidSetBy(lines[i]).Some? && NoOidLine(lines[i + 1..]) ==>
      ParseLines(lines, p).value.oid == OidSetBy(lines[i]).value
  {
    if lines != [] {
      ParseStep(lines, p);
      var q := Apply(Interpret(lines[0]).value, p);
      var tail := lines[1..];
      ParseLastOidWins(tail, q);
      var r := ParseLines(lines, p).value;
      if NoOidLine(lines) {
        assert OidSetBy(lines[0]).None?;
        assert NoOidLine(tail) by {
          forall j | 0 <= j < |tail| ensures OidSetBy(tail[j]).None? { assert tail[j] == lines[j + 1]; }
        }
      }
      forall i | 0 <= i < |lines| && OidSetBy(lines[i]).Some? && NoOidLine(lines[i + 1..])
        ensures r.oid == OidSetBy(lines[i]).value
      {
        if i == 0 {
          assert lines[1..] == tail;
        } else {
          assert lines[i] == tail[i - 1] && lines[i + 1..] == tail[i..];
        }
      }
    }
  }

  /** The same for the size: the last `size` line wins, and no `size` line keeps the starting size. */
  lemma {:induction false} ParseLastSizeWins(lines: seq<string>, p: Pointer)
    requires ParseLines(lines, p).Ok?
    ensures NoSizeLine(lines) ==> ParseLines(lines, p).value.size == p.size
    ensures forall i :: 0 <= i < |lines| && SizeSetBy(lines[i]).Some? && NoSizeLine(lines[i + 1..]) ==>
      ParseLines(lines, p).value.size == SizeSetBy(lines[i]).value
  {
    if lines != [] {
      ParseStep(lines, p);
      var q := Apply(Interpret(lines[0]).value, p);
      var tail := lines[1..];
      ParseLastSizeWins(tail, q);
      var r := ParseLines(lines, p).value;
      if NoSizeLine(lines) {
        assert SizeSetBy(lines[0]).None?;
        assert NoSizeLine(tail) by {
          forall j | 0 <= j < |tail| ensures SizeSetBy(tail[j]).None? { assert tail[j] == lines[j + 1]; }
        }
      }
      forall i | 0 <= i < |lines| && SizeSetBy(lines[i]).Some? && NoSizeLine(lines[i + 1..])
        ensures r.size == SizeSetBy(lines[i]).value
      {
        if i == 0 {
          assert lines[1..] == tail;
        } else {
          assert lines[i] == tail[i - 1] && lines[i + 1..] == tail[i..];
        }
      }
    }
  }

  /** A line `key value` whose key has no space and whose ends are not whitespace splits into that key and value. */
  lemma KeyValueOf(key: string, value: string)
    requires key != [] && ' ' !in key && !IsWhitespace(key[0])
    requires value != [] && !IsWhitespace(value[|value| - 1])
    ensures KeyValue(key + [' '] + value) == Some((key, value))
  {
    var line := key + [' '] + value;
    assert line[0] == key[0] && line[|line| - 1] == value[|value| - 1];
    TrimUnchanged(line);
    SplitOnceOf(key, ' ', value);
  }

  /** An oid that `RenderPointer` can write so that `parse_pointer` reads it back. */
  predicate PlainOid(oid: string)
  {
    forall i :: 0 <= i < |oid| ==> oid[i] != ':' && !IsWhitespace(oid[i])
  }

  /** The three lines of a pointer file as Git LFS writes them, each ended by a newline. */
  function RenderPointer(p: Pointer): string
  {
    "version " + VERSION + "\n" + "oid sha256:" + p.oid + "\n" + "size " + NatToString(p.size) + "\n"
  }

  lemma VersionLineAccepted()
    ensures Interpret("version " + VERSION) == Ok(Keep)
  {
    assert "version " + VERSION == "version" + [' '] + VERSION;
    KeyValueOf("version", VERSION);
  }

  lemma OidLineAccepted(oid: string)
    requires PlainOid(oid)
    ensures Interpret("oid sha256:" + oid) == Ok(SetOid(oid))
  {
    var value := "sha256:" + oid;
    var line := "oid sha256:" + oid;
    assert line == "oid" + [' '] + value;
    KeyValueOf("oid", value);
    OidLine(line, value);
    OidValueOfPrefixed(oid);
    SplitFirst(oid, ':');
    assert ':' !in oid;
  }

  lemma SizeLineAccepted(size: nat)
    requires size <= USIZE_MAX
    ensures Interpret("size " + NatToString(size)) == Ok(SetSize(size))
  {
    var digits := NatToString(size);
    var line := "size " + digits;
    assert line == "size" + [' '] + digits;
    assert IsDigit(digits[|digits| - 1]);
    KeyValueOf("size", digits);
    SizeLine(line, digits);
    ParseNatToString(size);
  }

  /** A line that `str::lines` returns unchanged: no newline, and no carriage return at its end. */
  predicate PlainLine(line: string)
  {
    line != [] && '\n' !in line && line[|line| - 1] != '\r'
  }

  /** A plain line and its newline come back as that line, before the lines that follow. */
  lemma PlainLineCons(line: string, rest: string)
    requires PlainLine(line)
    ensures Lines(line + ['\n'] + rest) == [line] + Lines(rest)
  {
    LinesCons(line, rest);
  }

  /** A plain line ended by a newline comes back as that one line. */
  lemma OneLine(c: string)
    requires PlainLine(c)
    ensures Lines(c + ['\n']) == [c]
  {
    PlainLineCons(c, []);
    assert c + ['\n'] + [] == c + ['\n'];
  }

  /** Three plain lines, each ended by a newline, come back as those three lines. */
  lemma ThreeLines(a: string, b: string, c: string)
    requires PlainLine(a) && PlainLine(b) && PlainLine(c)
    ensures Lines(a + ['\n'] + (b + ['\n'] + (c + ['\n']))) == [a, b, c]
  {
    OneLine(c);
    PlainLineCons(b, c + ['\n']);
    PlainLineCons(a, b + ['\n'] + (c + ['\n']));
  }

  /** An accepted first line applies its effect, and parsing goes on with the rest. */
  lemma ParseCons(line: string, rest: seq<string>, p: Pointer)
    requires Interpret(line).Ok?
    ensures ParseLines([line] + rest, p) == ParseLines(rest, Apply(Interpret(line).value, p))
  {
    assert ([line] + rest)[0] == line && ([line] + rest)[1..] == rest;
  }

  lemma RenderedLinesPlain(p: Pointer)
    requires PlainOid(p.oid)
    ensures PlainLine("version " + VERSION)
    ensures PlainLine("oid sha256:" + p.oid)
    ensures PlainLine("size " + NatToString(p.size))
  {
    var o := "oid sha256:" + p.oid;
    var digits := NatToString(p.size);
    var s := "size " + digits;
    assert forall i :: 11 <= i < |o| ==> o[i] == p.oid[i - 11];
    if p.oid != [] { assert o[|o| - 1] == p.oid[|p.oid| - 1]; }
    assert forall i :: 5 <= i < |s| ==> s[i] == digits[i - 5];
  }

  lemma VersionStep(rest: seq<string>, p: Pointer)
    ensures ParseLines(["version " + VERSION] + rest, p) == ParseLines(rest, p)
  {
    VersionLineAccepted();
    ParseCons("version " + VERSION, rest, p);
  }

  lemma OidStep(oid: string, rest: seq<string>, p: Pointer)
    requires PlainOid(oid)
    ensures ParseLines(["oid sha256:" + oid] + rest, p) == ParseLines(rest, p.(oid := oid))
  {
    OidLineAccepted(oid);
    ParseCons("oid sha256:" + oid, rest, p);
  }

  lemma SizeStep(size: nat, rest: seq<string>, p: Pointer)
    requires size <= USIZE_MAX
    ensures ParseLines(["size " + NatToString(size)] + rest, p) == ParseLines(rest, p.(size := size))
  {
    SizeLineAccepted(size);
    ParseCons("size " + NatToString(size), rest, p);
  }

  /** The three lines of a written pointer, as `str::lines` splits them. */
  lemma RenderedLines(p: Pointer)
    requires PlainOid(p.oid)
    ensures Lines(RenderPointer(p)) == ["version " + VERSION, "oid sha256:" + p.oid, "size " + NatToString(p.size)]
  {
    var v := "version " + VERSION;
    var o := "oid sha256:" + p.oid;
    var s := "size " + NatToString(p.size);
    assert RenderPointer(p) == v + ['\n'] + (o + ['\n'] + (s + ['\n']));
    RenderedLinesPlain(p);
    ThreeLines(v, o, s);
  }

  /** The three lines of a written pointer rebuild it from the default pointer. */
  lemma ParseRenderedLines(p: Pointer)
    requires PlainOid(p.oid) && p.size <= USIZE_MAX
    ensures ParseLines(["version " + VERSION, "oid sha256:" + p.oid, "size " + NatToString(p.size)], DefaultPointer) == Ok(p)
  {
    var v := "version " + VERSION;
    var o := "oid sha256:" + p.oid;
    var s := "size " + NatToString(p.size);
    assert [v, o, s] == [v] + ([o] + ([s] + []));
    VersionStep([o] + ([s] + []), DefaultPointer);
    OidStep(p.oid, [s] + [], DefaultPointer);
    SizeStep(p.size, [], DefaultPointer.(oid := p.oid));
  }

  /**
   * Round trip: a pointer file written in the standard three-line form is
   * parsed back to the pointer it was written from.
   */
  lemma ParseRenderPointer(p: Pointer)
    requires PlainOid(p.oid) && p.size <= USIZE_MAX
    ensures Parse(RenderPointer(p)) == Ok(p)
  {
    RenderedLines(p);
    ParseRenderedLines(p);
  }

  /** An `oid` line naming any hash algorithm other than sha256 rejects the whole file. */
  lemma ParseRejectsOtherHash(algo: string, oid: string)
    requires algo != HASH_ALGO && ':' !in algo && ' ' !in algo && algo != [] && !IsWhitespace(algo[0])
    requires oid != [] && !IsWhitespace(oid[|oid| - 1])
    ensures Interpret("oid " + algo + ":" + oid) == Err("lfs hash algorithm is not sha256")
  {
    var value := algo + [':'] + oid;
    var line := "oid " + algo + ":" + oid;
    assert line == "oid" + [' '] + value;
    assert value[|value| - 1] == oid[|oid| - 1];
    KeyValueOf("oid", value);
    OidLine(line, value);
    SplitOnceOf(algo, ':', oid);
    SplitFirst(value, ':');
    assert OidValue(value) == Err("lfs hash algorithm is not sha256");
  }

  /** The empty file is accepted and gives the default pointer. */
  lemma ParseEmpty()
    ensures Parse("") == Ok(DefaultPointer)
  {
  }

  // =====================================================================
  // BatchPointers::batch_pointers
  // =====================================================================

  /**
   * `batch_pointers(offset, count)`: the page of at most `count` elements
   * starting at `offset`, and the cursor for the next page. An offset at or
   * past the end (an empty list included) is an error.
   */
  function BatchPointers<T>(s: seq<T>, offset: nat, count: nat): (r: Result<(seq<T>, nat)>)
    ensures r.Err? <==> offset >= |s|
    ensures r.Err? ==> r.error == "cursor out of bounds"
    ensures r.Ok? ==>
      var (page, next) := r.value;
      && next == Min(offset + count, |s|)
      && offset <= next <= |s|
      && |page| == Min(count, |s| - offset)
      && page == s[offset..next]
  {
    if offset >= |s| then Err("cursor out of bounds")
    else
      var k := Min(count, |s| - offset);
      Ok((s[offset..][..k], offset + k))
  }

  /** Concatenation of a list of lists. */
  function Flatten<T>(ss: seq<seq<T>>): seq<T>
  {
    if ss == [] then [] else ss[0] + Flatten(ss[1..])
  }

  lemma {:induction false} FlattenAppend<T>(a: seq<seq<T>>, b: seq<seq<T>>)
    ensures Flatten(a + b) == Flatten(a) + Flatten(b)
  {
    if a != [] {
      assert (a + b)[1..] == a[1..] + b;
      FlattenAppend(a[1..], b);
    } else {
      assert a + b == b;
    }
  }

  /**
   * The pages visited by following the cursor of `BatchPointers` from
   * `offset` until it reports out of bounds.
   */
  function Chunks<T>(s: seq<T>, n: nat, offset: nat): seq<seq<T>>
    requires n > 0
    decreases |s| - offset
  {
    match BatchPointers(s, offset, n)
    case Err(_) => []
    case Ok((page, next)) => [page] + Chunks(s, n, next)
  }

  /** One turn of the cursor: the page at `offset`, then the pages after it. */
  lemma ChunksStep<T>(s: seq<T>, n: nat, offset: nat)
    requires n > 0
    ensures BatchPointers(s, offset, n).Err? ==> Chunks(s, n, offset) == []
    ensures BatchPointers(s, offset, n).Ok? ==>
      Chunks(s, n, offset) == [BatchPointers(s, offset, n).value.0] + Chunks(s, n, BatchPointers(s, offset, n).value.1)
  {
  }

  /** Paging with this cursor visits every element once, in order, and nothing else. */
  lemma {:induction false} ChunksConcat<T>(s: seq<T>, n: nat, offset: nat)
    requires n > 0 && offset <= |s|
    ensures Flatten(Chunks(s, n, offset)) == s[offset..]
    decreases |s| - offset
  {
    if offset < |s| {
      var (page, next) := BatchPointers(s, offset, n).value;
      ChunksConcat(s, n, next);
      assert ([page] + Chunks(s, n, next))[1..] == Chunks(s, n, next);
      assert s[offset..] == s[offset..next] + s[next..];
    }
  }

  /** Every page holds between 1 and `n` elements, and only the last may be short. */
  lemma {:induction false} ChunkSizes<T>(s: seq<T>, n: nat, offset: nat)
    requires n > 0
    ensures forall i :: 0 <= i < |Chunks(s, n, offset)| ==> 1 <= |Chunks(s, n, offset)[i]| <= n
    ensures forall i :: 0 <= i < |Chunks(s, n, offset)| - 1 ==> |Chunks(s, n, offset)[i]| == n
    decreases |s| - offset
  {
    if offset < |s| {
      var (page, next) := BatchPointers(s, offset, n).value;
      ChunkSizes(s, n, next);
      var cs := Chunks(s, n, offset);
      assert cs == [page] + Chunks(s, n, next);
      forall i | 1 <= i < |cs| ensures cs[i] == Chunks(s, n, next)[i - 1] { }
      if |cs| > 1 {
        assert next < |s|;
        assert |page| == n;
      }
    }
  }

  /**
   * There are exactly ceil((|s| - offset) / n) pages, one request each: the
   * least number of pages of `n` that hold the remaining elements.
   */
  lemma {:induction false} ChunkCount<T>(s: seq<T>, n: nat, offset: nat)
    requires n > 0 && offset <= |s|
    ensures |s| - offset <= |Chunks(s, n, offset)| * n
    ensures |Chunks(s, n, offset)| > 0 ==> (|Chunks(s, n, offset)| - 1) * n < |s| - offset
    ensures |Chunks(s, n, offset)| == 0 <==> offset == |s|
    decreases |s| - offset
  {
    if offset < |s| {
      var next := BatchPointers(s, offset, n).value.1;
      ChunksStep(s, n, offset);
      ChunkCount(s, n, next);
      var k := |Chunks(s, n, next)|;
      assert |Chunks(s, n, offset)| == k + 1;
      if next < |s| {
        assert next == offset + n && k > 0;
        assert (k + 1) * n == k * n + n;
        assert k * n == (k - 1) * n + n;
      }
    }
  }

  /** With the server limit of 100, 250 pointers go out as pages of 100, 100 and 50. */
  lemma ChunksOf250<T>(s: seq<T>)
    requires |s| == 250
    ensures |Chunks(s, BATCH_OBJECT_LIMIT, 0)| == 3
    ensures Chunks(s, BATCH_OBJECT_LIMIT, 0) == [s[..100], s[100..200], s[200..]]
  {
    var n := BATCH_OBJECT_LIMIT;
    assert Chunks(s, n, 250) == [];
    assert Chunks(s, n, 200) == [s[200..250]] + Chunks(s, n, 250);
    assert Chunks(s, n, 100) == [s[100..200]] + Chunks(s, n, 200);
    assert Chunks(s, n, 0) == [s[0..100]] + Chunks(s, n, 100);
    assert s[0..100] == s[..100] && s[200..250] == s[200..];
  }

  // =====================================================================
  // batch_query_objects
  // =====================================================================

  /** The JSON body of a batch request. */
  datatype BatchRequest = BatchRequest(operation: string, objects: seq<Pointer>)

  datatype BatchResponseActionsDownload = BatchResponseActionsDownload(href: string)
  datatype BatchResponseActions = BatchResponseActions(download: BatchResponseActionsDownload)
  datatype BatchResponseObject = BatchResponseObject(oid: string, size: nat, actions: BatchResponseActions)
  /** The JSON body of a batch response. */
  datatype BatchResponse = BatchResponse(objects: seq<BatchResponseObject>)

  /**
   * What one POST comes to: the request could not be sent, the body could not
   * be read, the body decoded as a batch response, or it did not, in which
   * case it is described as text if it is valid UTF-8.
   */
  datatype Reply =
    | SendFailed
    | ReadFailed(reason: string)
    | Decoded(response: BatchResponse)
    | NotJson(text: string)
    | NotUtf8(reason: string)

  /** The batch endpoint: answers a POST of a request to a URL. */
  type Server = (string, BatchRequest) -> Reply

  /**
   * The batch endpoint of a repository: `https://{host}/` followed by
   * `{namespace}/{name}.git/info/lfs/objects/batch` and nothing else.
   */
  function BatchEndpoint(tree: Tree): (url: string)
    ensures StartsWith(url, "https://" + tree.hostname + "/")
    ensures EndsWith(url, tree.namespace + "/" + tree.name + ".git/info/lfs/objects/batch")
    ensures |url| == |"https://" + tree.hostname + "/"| + |tree.namespace + "/" + tree.name + ".git/info/lfs/objects/batch"|
  {
    var host := "https://" + tree.hostname + "/";
    var path := tree.namespace + "/" + tree.name + ".git/info/lfs/objects/batch";
    AffixesOfConcat(host, path);
    host + path
  }

  /** The download request for one page of pointers. */
  function DownloadRequest(page: seq<Pointer>): BatchRequest
  {
    BatchRequest("download", page)
  }

  /** The `(oid, href)` pairs the server reported, in the server's order. */
  function DownloadPairs(objects: seq<BatchResponseObject>): (r: seq<(string, string)>)
    ensures |r| == |objects|
    ensures forall i :: 0 <= i < |objects| ==> r[i] == (objects[i].oid, objects[i].actions.download.href)
  {
    if objects == [] then []
    else [(objects[0].oid, objects[0].actions.download.href)] + DownloadPairs(objects[1..])
  }

  /** What one page contributes: its pairs, or the error that aborts the call. */
  function PageOutcome(reply: Reply): (r: Result<seq<(string, string)>>)
    ensures r.Ok? <==> reply.Decoded?
  {
    match reply
    case SendFailed => Err("couldn't send request")
    case ReadFailed(e) => Err("couldn't read raw response: " + e)
    case NotJson(text) => Err("couldn't parse response: response was not json, but a string: " + text)
    case NotUtf8(e) => Err("couldn't parse response: response was not json, and not a valid utf-8 string: " + e)
    case Decoded(response) => Ok(DownloadPairs(response.objects))
  }

  function PageReply(url: string, server: Server, page: seq<Pointer>): Result<seq<(string, string)>>
  {
    PageOutcome(server(url, DownloadRequest(page)))
  }

  /** Every one of `pages` was answered with a list of objects. */
  predicate AllAccepted(url: string, server: Server, pages: seq<seq<Pointer>>)
  {
    forall j :: 0 <= j < |pages| ==> PageReply(url, server, pages[j]).Ok?
  }

  lemma AllAcceptedAppend(url: string, server: Server, pages: seq<seq<Pointer>>, page: seq<Pointer>)
    requires AllAccepted(url, server, pages) && PageReply(url, server, page).Ok?
    ensures AllAccepted(url, server, pages + [page])
  {
    forall j | 0 <= j < |pages| + 1 ensures PageReply(url, server, (pages + [page])[j]).Ok? {
      if j < |pages| { assert (pages + [page])[j] == pages[j]; }
    }
  }

  function Prepend(pairs: seq<(string, string)>, r: Result<seq<(string, string)>>): Result<seq<(string, string)>>
  {
    match r
    case Err(e) => Err(e)
    case Ok(rest) => Ok(pairs + rest)
  }

  /** The pages sent in order; the first failing page fails the whole call. */
  function ResolvePages(url: string, server: Server, pages: seq<seq<Pointer>>): Result<seq<(string, string)>>
  {
    if pages == [] then Ok([])
    else match PageReply(url, server, pages[0])
      case Err(e) => Err(e)
      case Ok(pairs) => Prepend(pairs, ResolvePages(url, server, pages[1..]))
  }

  /** The call succeeds exactly when every page's reply decodes. */
  lemma {:induction false} ResolveOkIff(url: string, server: Server, pages: seq<seq<Pointer>>)
    ensures ResolvePages(url, server, pages).Ok? <==>
      forall i :: 0 <= i < |pages| ==> PageReply(url, server, pages[i]).Ok?
  {
    if pages != [] {
      var tail := pages[1..];
      ResolveOkIff(url, server, tail);
      if PageReply(url, server, pages[0]).Ok? {
        if forall i :: 0 <= i < |tail| ==> PageReply(url, server, tail[i]).Ok? {
          forall i | 0 <= i < |pages| ensures PageReply(url, server, pages[i]).Ok? {
            if i > 0 { assert pages[i] == tail[i - 1]; }
          }
        } else {
          var i :| 0 <= i < |tail| && PageReply(url, server, tail[i]).Err?;
          assert pages[i + 1] == tail[i];
        }
      }
    }
  }

  /** When every page decodes, the call returns the concatenation of all pages' pairs, in page order. */
  lemma {:induction false} ResolveValue(url: string, server: Server, pages: seq<seq<Pointer>>)
    requires forall i :: 0 <= i < |pages| ==> PageReply(url, server, pages[i]).Ok?
    ensures ResolvePages(url, server, pages)
      == Ok(Flatten(seq(|pages|, i requires 0 <= i < |pages| => PageReply(url, server, pages[i]).value)))
  {
    if pages != [] {
      var tail := pages[1..];
      var pairs := PageReply(url, server, pages[0]).value;
      assert forall i :: 0 <= i < |tail| ==> tail[i] == pages[i + 1];
      ResolveValue(url, server, tail);
      var all := seq(|pages|, i requires 0 <= i < |pages| => PageReply(url, server, pages[i]).value);
      var rest := seq(|tail|, i requires 0 <= i < |tail| => PageReply(url, server, tail[i]).value);
      assert all[1..] == rest;
      assert all == [pairs] + rest;
    }
  }

  /**
   * A failed call returns the error of the first page that failed, and no
   * pairs at all: every earlier page succeeded.
   */
  lemma {:induction false} ResolveFirstError(url: string, server: Server, pages: seq<seq<Pointer>>)
    requires ResolvePages(url, server, pages).Err?
    ensures exists i :: (0 <= i < |pages| && PageReply(url, server, pages[i]) == Err(ResolvePages(url, server, pages).error)
      && forall j :: 0 <= j < i ==> PageReply(url, server, pages[j]).Ok?)
  {
    var r := ResolvePages(url, server, pages);
    var tail := pages[1..];
    if PageReply(url, server, pages[0]).Err? {
      assert PageReply(url, server, pages[0]) == Err(r.error);
    } else {
      ResolveFirstError(url, server, tail);
      var i :| 0 <= i < |tail| && PageReply(url, server, tail[i]) == Err(r.error)
        && forall j :: 0 <= j < i ==> PageReply(url, server, tail[j]).Ok?;
      assert PageReply(url, server, pages[i + 1]) == Err(r.error);
      forall j | 0 <= j < i + 1 ensures PageReply(url, server, pages[j]).Ok? {
        if j > 0 { assert pages[j] == tail[j - 1]; }
      }
    }
  }

  lemma PrependEmpty(r: Result<seq<(string, string)>>)
    ensures Prepend([], r) == r
  {
    if r.Ok? {
      assert [] + r.value == r.value;
    }
  }

  lemma PrependAll(pairs: seq<(string, string)>)
    ensures Prepend(pairs, Ok([])) == Ok(pairs)
  {
    assert pairs + [] == pairs;
  }

  /** One page sent: its reply either fails the call or adds its pairs after those collected so far. */
  lemma ResolveStep(url: string, server: Server, page: seq<Pointer>, rest: seq<seq<Pointer>>, collected: seq<(string, string)>)
    ensures PageReply(url, server, page).Err? ==>
      Prepend(collected, ResolvePages(url, server, [page] + rest)) == PageReply(url, server, page)
    ensures PageReply(url, server, page).Ok? ==>
      Prepend(collected, ResolvePages(url, server, [page] + rest))
        == Prepend(collected + PageReply(url, server, page).value, ResolvePages(url, server, rest))
  {
    assert ([page] + rest)[1..] == rest;
    match PageReply(url, server, page)
    case Err(_) =>
    case Ok(pairs) =>
      match ResolvePages(url, server, rest)
      case Err(_) =>
      case Ok(tail) =>
        assert collected + (pairs + tail) == (collected + pairs) + tail;
  }

  /**
   * One page posted: it is the next of the pages, and either its reply fails
   * the whole call or its pairs join those collected so far.
   */
  lemma QueryStep(url: string, server: Server, pointers: seq<Pointer>, offset: nat, pages: seq<seq<Pointer>>,
                  sent: seq<seq<Pointer>>, collected: seq<(string, string)>)
    requires BatchPointers(pointers, offset, BATCH_OBJECT_LIMIT).Ok?
    requires pages == sent + Chunks(pointers, BATCH_OBJECT_LIMIT, offset)
    requires ResolvePages(url, server, pages)
          == Prepend(collected, ResolvePages(url, server, Chunks(pointers, BATCH_OBJECT_LIMIT, offset)))
    ensures var (chunk, next) := BatchPointers(pointers, offset, BATCH_OBJECT_LIMIT).value;
      && pages == (sent + [chunk]) + Chunks(pointers, BATCH_OBJECT_LIMIT, next)
      && sent + [chunk] <= pages
      && (PageReply(url, server, chunk).Err? ==> ResolvePages(url, server, pages) == PageReply(url, server, chunk))
      && (PageReply(url, server, chunk).Ok? ==>
            ResolvePages(url, server, pages)
            == Prepend(collected + PageReply(url, server, chunk).value,
                       ResolvePages(url, server, Chunks(pointers, BATCH_OBJECT_LIMIT, next))))
  {
    var (chunk, next) := BatchPointers(pointers, offset, BATCH_OBJECT_LIMIT).value;
    var rest := Chunks(pointers, BATCH_OBJECT_LIMIT, next);
    ChunksStep(pointers, BATCH_OBJECT_LIMIT, offset);
    ResolveStep(url, server, chunk, rest, collected);
    assert sent + ([chunk] + rest) == (sent + [chunk]) + rest;
  }

  /**
   * `batch_query_objects`: page through the pointers with `BatchPointers` at
   * the server limit, POST one download request per page, and collect the
   * `(oid, href)` pairs. `sent` records the pages actually posted.
   */
  method BatchQueryObjects(pointers: seq<Pointer>, server: Server, tree: Tree)
    returns (r: Result<seq<(string, string)>>, ghost sent: seq<seq<Pointer>>)
    ensures r == ResolvePages(BatchEndpoint(tree), server, Chunks(pointers, BATCH_OBJECT_LIMIT, 0))
    ensures sent <= Chunks(pointers, BATCH_OBJECT_LIMIT, 0)
    ensures r.Ok? ==> sent == Chunks(pointers, BATCH_OBJECT_LIMIT, 0)
    ensures r.Err? ==> sent != [] && PageReply(BatchEndpoint(tree), server, sent[|sent| - 1]) == Err(r.error)
    ensures r.Err? ==> AllAccepted(BatchEndpoint(tree), server, sent[..|sent| - 1])
    ensures r.Ok? ==> AllAccepted(BatchEndpoint(tree), server, sent)
    ensures pointers == [] ==> r == Ok([]) && sent == []
  {
    var url := BatchEndpoint(tree);
    ghost var pages := Chunks(pointers, BATCH_OBJECT_LIMIT, 0);
    var downloadUrls: seq<(string, string)> := [];
    var offset := 0;
    sent := [];
    PrependEmpty(ResolvePages(url, server, pages));
    while true
      invariant offset <= |pointers|
      invariant pages == sent + Chunks(pointers, BATCH_OBJECT_LIMIT, offset)
      invariant AllAccepted(url, server, sent)
      invariant ResolvePages(url, server, pages)
             == Prepend(downloadUrls, ResolvePages(url, server, Chunks(pointers, BATCH_OBJECT_LIMIT, offset)))
      decreases |pointers| - offset
    {
      var page := BatchPointers(pointers, offset, BATCH_OBJECT_LIMIT);
      if page.Err? {
        ChunksStep(pointers, BATCH_OBJECT_LIMIT, offset);
        break;
      }
      var (chunk, nextOffset) := page.value;
      QueryStep(url, server, pointers, offset, pages, sent, downloadUrls);
      ghost var accepted := sent;
      sent := sent + [chunk];
      offset := nextOffset;
      var outcome := PageOutcome(server(url, DownloadRequest(chunk)));
      if outcome.Err? {
        r := Err(outcome.error);
        assert sent[..|sent| - 1] == accepted;
        return;
      }
      AllAcceptedAppend(url, server, accepted, chunk);
      downloadUrls := downloadUrls + outcome.value;
    }
    PrependAll(downloadUrls);
    r := Ok(downloadUrls);
  }

  // =====================================================================
  // concurrent_download_impl
  // =====================================================================

  /** One GET of `url` for the object `oid` (the cached or uncached `fetch_one`). */
  type Fetch = (string, string) -> Result<seq<byte>>

  /**
   * The results folded into a map in input order, keeping only successful
   * fetches. Its keys are exactly the oids with a successful fetch, and each
   * maps to the bytes of a successful fetch of that oid.
   */
  function CollectDownloads(urls: seq<(string, string)>, fetch: Fetch): (m: map<string, seq<byte>>)
    ensures forall oid :: oid in m <==>
      exists i :: 0 <= i < |urls| && urls[i].0 == oid && fetch(urls[i].1, urls[i].0).Ok?
    ensures forall oid :: oid in m ==>
      exists i :: 0 <= i < |urls| && urls[i].0 == oid && fetch(urls[i].1, urls[i].0) == Ok(m[oid])
  {
    if urls == [] then map[]
    else
      var init := urls[..|urls| - 1];
      var m := CollectDownloads(init, fetch);
      var (oid, url) := urls[|urls| - 1];
      assert forall i :: 0 <= i < |init| ==> init[i] == urls[i];
      match fetch(url, oid)
      case Err(_) => m
      case Ok(bytes) => m[oid := bytes]
  }

  /**
   * `concurrent_download_impl`: every (oid, url) pair is fetched, failed
   * fetches are dropped, and the call itself never fails.
   */
  function ConcurrentDownload(urls: seq<(string, string)>, fetch: Fetch, concurrencyFactor: nat)
    : (r: Result<map<string, seq<byte>>>)
    ensures r.Ok?
    ensures r.value.Keys == set i | 0 <= i < |urls| && fetch(urls[i].1, urls[i].0).Ok? :: urls[i].0
  {
    var m := CollectDownloads(urls, fetch);
    Ok(m)
  }

  /** An oid listed once gets exactly the bytes of its own fetch, if that succeeded. */
  lemma DownloadOfListedOnce(urls: seq<(string, string)>, fetch: Fetch, i: nat)
    requires i < |urls|
    requires forall j :: 0 <= j < |urls| && j != i ==> urls[j].0 != urls[i].0
    ensures var m := CollectDownloads(urls, fetch);
      match fetch(urls[i].1, urls[i].0)
      case Ok(bytes) => urls[i].0 in m && m[urls[i].0] == bytes
      case Err(_) => urls[i].0 !in m
  {
  }
}
