/**
 * Path and identity resolution of the path-based pipeline: ordering-marker
 * stripping (`replacePrefix`), the sections of a file (`computeSections`),
 * its canonical path (`computePath`, `getSanitizedPath`), its identity
 * (`computeFileId`) and the `FileIndex` built from them (`newFileIndex`).
 *
 * The foreign calls the source makes (`@sindresorhus/slugify`, SHA-256 from
 * `node:crypto`, `path.join` and `path.parse` from `node:path`) are opaque
 * functions handed in as a `Foreign` value.
 */
module PathResolver {
  import opened Options
  import opened Text
  import opened PipelineFile

  /** What `path.parse` yields that the pipeline uses: the directory and the base name without extension. */
  datatype ParsedPath = ParsedPath(dir: string, name: string)

  predicate IsLowerHex(ch: char)
  {
    '0' <= ch <= '9' || 'a' <= ch <= 'f'
  }

  /** A hex-encoded SHA-256 digest (FIPS 180-4): 64 lowercase hexadecimal digits. */
  predicate IsHexDigest(s: string)
  {
    |s| == 64 && forall i :: 0 <= i < |s| ==> IsLowerHex(s[i])
  }

  type Digest = s: string | IsHexDigest(s)
    witness seq(64, _ => '0')

  /** The foreign functions, each deterministic and otherwise unknown. */
  datatype Foreign = Foreign(
    slugify: string -> string,
    sha256Hex: string -> Digest,
    join: (string, string) -> string,
    parse: string -> ParsedPath)

  // ---------------------------------------------------------------------------
  // replacePrefix: the pattern /^(:\d+:|\(\d+\)|\[\d+]|\d+-)(.+)$/
  // ---------------------------------------------------------------------------

  /** `\d` without the unicode flag: an ASCII decimal digit. */
  predicate IsDigit(ch: char)
  {
    '0' <= ch <= '9'
  }

  predicate AllDigits(s: string)
  {
    forall i :: 0 <= i < |s| ==> IsDigit(s[i])
  }

  /** The characters `.` does not match without the dotAll flag. */
  predicate IsLineTerminator(ch: char)
  {
    ch == '\n' || ch == '\r' || ch == '\U{2028}' || ch == '\U{2029}'
  }

  /** The language of the first group: `:N:`, `(N)`, `[N]` or `N-`, N one or more digits. */
  predicate IsMarker(m: string)
  {
    || (|m| >= 3 && m[0] == ':' && m[|m| - 1] == ':' && AllDigits(m[1..|m| - 1]))
    || (|m| >= 3 && m[0] == '(' && m[|m| - 1] == ')' && AllDigits(m[1..|m| - 1]))
    || (|m| >= 3 && m[0] == '[' && m[|m| - 1] == ']' && AllDigits(m[1..|m| - 1]))
    || (|m| >= 2 && m[|m| - 1] == '-' && AllDigits(m[..|m| - 1]))
  }

  /** The language of `(.+)$`: at least one character, none a line terminator. */
  predicate IsRest(r: string)
  {
    |r| >= 1 && forall i :: 0 <= i < |r| ==> !IsLineTerminator(r[i])
  }

  /** The whole pattern matches `s` with the first group ending at `k`. */
  predicate MatchesAt(s: string, k: int)
  {
    0 <= k <= |s| && IsMarker(s[..k]) && IsRest(s[k..])
  }

  /** End of the run of digits that starts at `i`. */
  function DigitsEnd(s: string, i: nat): (j: nat)
    requires i <= |s|
    ensures i <= j <= |s| && AllDigits(s[i..j]) && (j == |s| || !IsDigit(s[j]))
    decreases |s| - i
  {
    if i < |s| && IsDigit(s[i]) then
      var j := DigitsEnd(s, i + 1);
      assert s[i..j] == [s[i]] + s[i + 1..j];
      j
    else i
  }

  /** The character that closes a bracketed marker opened by `open`. */
  function Closer(open: char): char
  {
    if open == ':' then ':' else if open == '(' then ')' else ']'
  }

  /** Length of the ordering marker at the start of `s`, scanning as the pattern does. */
  function MarkerLength(s: string): (k: Option<nat>)
    ensures k.Some? ==> k.value <= |s| && IsMarker(s[..k.value])
  {
    if |s| == 0 then None
    else if s[0] == ':' || s[0] == '(' || s[0] == '[' then
      var j := DigitsEnd(s, 1);
      if j > 1 && j < |s| && s[j] == Closer(s[0]) then
        assert s[..j + 1][1..j] == s[1..j];
        Some(j + 1)
      else None
    else if IsDigit(s[0]) then
      var j := DigitsEnd(s, 0);
      if j < |s| && s[j] == '-' then
        assert s[..j + 1][..j] == s[..j];
        Some(j + 1)
      else None
    else None
  }

  /**
   * `replacePrefix`: drops the ordering marker when the whole pattern
   * matches, and otherwise returns the segment unchanged.
   */
  function ReplacePrefix(s: string): (r: string)
    ensures IsSuffix(r, s)
    ensures r != s ==> MatchesAt(s, |s| - |r|)
  {
    match MarkerLength(s)
    case Some(k) => if IsRest(s[k..]) then s[k..] else s
    case None => s
  }

  /** The digit scan stops exactly at the first non-digit. */
  lemma {:induction false} DigitsEndAt(s: string, i: nat, j: nat)
    requires i <= j <= |s| && AllDigits(s[i..j]) && (j == |s| || !IsDigit(s[j]))
    ensures DigitsEnd(s, i) == j
    decreases j - i
  {
    if i < j {
      assert s[i..j][0] == s[i];
      assert s[i + 1..j] == s[i..j][1..];
      DigitsEndAt(s, i + 1, j);
    }
  }

  /** Every marker at the start of `s` is the one the scanner finds. */
  lemma MarkerLengthComplete(s: string, k: nat)
    requires k <= |s| && IsMarker(s[..k])
    ensures MarkerLength(s) == Some(k)
  {
    var m := s[..k];
    if |m| >= 3 && (m[0] == ':' || m[0] == '(' || m[0] == '[') && m[|m| - 1] == Closer(m[0]) && AllDigits(m[1..|m| - 1]) {
      assert s[1..k - 1] == m[1..|m| - 1];
      assert !IsDigit(s[k - 1]);
      DigitsEndAt(s, 1, k - 1);
    } else {
      assert m[|m| - 1] == '-' && AllDigits(m[..|m| - 1]);
      assert s[..k - 1] == m[..|m| - 1];
      assert IsDigit(s[0]) by { assert s[0] == m[..|m| - 1][0]; }
      DigitsEndAt(s, 0, k - 1);
    }
  }

  /** Whenever the pattern matches, exactly that marker is stripped. */
  lemma ReplacePrefixStrips(s: string, k: int)
    requires MatchesAt(s, k)
    ensures ReplacePrefix(s) == s[k..]
  {
    MarkerLengthComplete(s, k);
  }

  /** The segment comes back unchanged if and only if the pattern does not match it. */
  lemma ReplacePrefixUnchanged(s: string)
    ensures ReplacePrefix(s) == s <==> forall k :: 0 <= k <= |s| ==> !MatchesAt(s, k)
  {
    if exists k :: 0 <= k <= |s| && MatchesAt(s, k) {
      var k :| 0 <= k <= |s| && MatchesAt(s, k);
      ReplacePrefixStrips(s, k);
      assert |s[k..]| < |s|;
    }
  }

  /** A digit run and a dash, followed by a rest, leave the rest. */
  lemma DashMarkerStripped(digits: string, rest: string)
    requires |digits| >= 1 && AllDigits(digits) && IsRest(rest)
    ensures ReplacePrefix(digits + "-" + rest) == rest
  {
    var s := digits + "-" + rest;
    var k := |digits| + 1;
    assert s[..k] == digits + "-" && s[..k][..|digits|] == digits;
    assert s[k..] == rest;
    ReplacePrefixStrips(s, k);
  }

  /** A bracketed digit run (`:N:`, `(N)` or `[N]`), followed by a rest, leaves the rest. */
  lemma BracketMarkerStripped(open: char, digits: string, rest: string)
    requires open == ':' || open == '(' || open == '['
    requires |digits| >= 1 && AllDigits(digits) && IsRest(rest)
    ensures ReplacePrefix([open] + digits + [Closer(open)] + rest) == rest
  {
    var m := [open] + digits + [Closer(open)];
    var s := m + rest;
    assert m[1..|m| - 1] == digits;
    assert s[..|m|] == m && s[|m|..] == rest;
    ReplacePrefixStrips(s, |m|);
  }

  /** A segment that does not start like a marker is kept. */
  lemma NoMarkerKept(s: string)
    requires |s| == 0 || (s[0] != ':' && s[0] != '(' && s[0] != '[' && !IsDigit(s[0]))
    ensures ReplacePrefix(s) == s
  {
  }

  /** A marker with nothing after it is kept: `.+` needs a character. */
  lemma BareMarkerKept(m: string)
    requires IsMarker(m)
    ensures ReplacePrefix(m) == m
  {
    assert m[..|m|] == m;
    MarkerLengthComplete(m, |m|);
  }

  /** A parenthesised marker is stripped, and only the marker: `(2)-intro` keeps its dash. */
  lemma ReplacePrefixParenExample()
    ensures ReplacePrefix("(2)-intro") == "-intro"
  {
    assert "(2)-intro" == ['('] + "2" + [Closer('(')] + "-intro";
    BracketMarkerStripped('(', "2", "-intro");
  }

  /** A square-bracketed marker is stripped. */
  lemma ReplacePrefixBracketExample()
    ensures ReplacePrefix("[3]notes") == "notes"
  {
    assert "[3]notes" == ['['] + "3" + [Closer('[')] + "notes";
    BracketMarkerStripped('[', "3", "notes");
  }

  /** A colon-delimited marker is stripped. */
  lemma ReplacePrefixColonExample()
    ensures ReplacePrefix(":4:topic") == "topic"
  {
    assert ":4:topic" == [':'] + "4" + [Closer(':')] + "topic";
    BracketMarkerStripped(':', "4", "topic");
  }

  /** A dash marker of several digits is stripped. */
  lemma ReplacePrefixDashExample()
    ensures ReplacePrefix("01-guide") == "guide"
  {
    assert "01-guide" == "01" + "-" + "guide";
    DashMarkerStripped("01", "guide");
  }

  /** Only one marker is stripped: `1-2-x` keeps its second marker. */
  lemma ReplacePrefixOnceExample()
    ensures ReplacePrefix("1-2-x") == "2-x"
  {
    assert "1-2-x" == "1" + "-" + "2-x";
    DashMarkerStripped("1", "2-x");
  }

  /** Each call strips one marker, so a second call can strip another: `1-2-x` takes two calls to reach `x`. */
  lemma ReplacePrefixTwice()
    ensures ReplacePrefix(ReplacePrefix("1-2-x")) == "x"
  {
    ReplacePrefixOnceExample();
    assert "2-x" == "2" + "-" + "x";
    DashMarkerStripped("2", "x");
  }

  /** A marker with nothing after it, and segments without a marker, are kept. */
  lemma ReplacePrefixKeeps()
    ensures ReplacePrefix("1-") == "1-"
    ensures ReplacePrefix("..") == ".."
    ensures ReplacePrefix("guide") == "guide"
  {
    assert IsMarker("1-") by {
      assert "1-"[..1] == "1";
    }
    BareMarkerKept("1-");
    NoMarkerKept("..");
    NoMarkerKept("guide");
  }

  // ---------------------------------------------------------------------------
  // computeSections, computePath, getSanitizedPath
  // ---------------------------------------------------------------------------

  /** `computeSections`: the `/`-separated segments of the directory, each marker-stripped. */
  function ComputeSections(parsed: ParsedPath): (sections: seq<string>)
    ensures parsed.dir == "" ==> sections == []
    ensures parsed.dir != "" ==>
      |sections| == |Split(parsed.dir, '/')| &&
      forall i :: 0 <= i < |sections| ==> sections[i] == ReplacePrefix(Split(parsed.dir, '/')[i])
  {
    if parsed.dir == "" then []
    else
      var segments := Split(parsed.dir, '/');
      seq(|segments|, i requires 0 <= i < |segments| => ReplacePrefix(segments[i]))
  }

  /** There is one section per `/`-separated segment of a non-empty directory. */
  lemma SectionCount(parsed: ParsedPath)
    requires parsed.dir != ""
    ensures |ComputeSections(parsed)| == Count(parsed.dir, '/') + 1
  {
    SplitCount(parsed.dir, '/');
  }

  /**
   * A directory written as segments joined by `/` has those segments, in
   * order, as its sections, each marker-stripped and so a suffix of its segment.
   */
  lemma SectionsOfDirectory(parsed: ParsedPath, segments: seq<string>)
    requires parsed.dir != "" && |segments| >= 1 && parsed.dir == Join(segments, "/")
    requires forall i :: 0 <= i < |segments| ==> '/' !in segments[i]
    ensures |ComputeSections(parsed)| == |segments|
    ensures forall i :: 0 <= i < |segments| ==>
      ComputeSections(parsed)[i] == ReplacePrefix(segments[i]) && IsSuffix(ComputeSections(parsed)[i], segments[i])
  {
    SplitJoin(segments, '/');
  }

  /** A section as it appears in the path: `..` verbatim, anything else slugified. */
  function SlugSegment(slugify: string -> string, section: string): string
  {
    if section != ".." then slugify(section) else section
  }

  function SlugSegments(slugify: string -> string, sections: seq<string>): (segments: seq<string>)
    ensures |segments| == |sections|
    ensures forall i :: 0 <= i < |sections| ==> segments[i] == SlugSegment(slugify, sections[i])
  {
    seq(|sections|, i requires 0 <= i < |sections| => SlugSegment(slugify, sections[i]))
  }

  /** The directory part of the path: the slugified sections joined with `/`. */
  function SlugDir(slugify: string -> string, sections: seq<string>): string
  {
    Join(SlugSegments(slugify, sections), "/")
  }

  /** The file part of the path: the slugified, marker-stripped base name. */
  function SlugName(slugify: string -> string, parsed: ParsedPath): string
  {
    slugify(ReplacePrefix(parsed.name))
  }

  /** `computePath`: directory and file name joined, an `index` file flattened to its directory. */
  function ComputePath(slugify: string -> string, sections: seq<string>, parsed: ParsedPath): (path: string)
    ensures StartsWith(path, SlugDir(slugify, sections))
    ensures SlugName(slugify, parsed) == "index" ==> path == SlugDir(slugify, sections)
    ensures SlugName(slugify, parsed) != "index" ==>
      && IsSuffix(SlugName(slugify, parsed), path)
      && |path| == |SlugDir(slugify, sections)| + (if SlugDir(slugify, sections) == "" then 0 else 1) + |SlugName(slugify, parsed)|
      && (SlugDir(slugify, sections) != "" ==> path[|SlugDir(slugify, sections)|] == '/')
  {
    var dir := SlugDir(slugify, sections);
    var file := SlugName(slugify, parsed);
    if file == "index" then dir
    else if dir == "" then file
    else dir + "/" + file
  }

  /** An `index` file maps to its directory, and to `""` at the root. */
  lemma ComputePathIndex(slugify: string -> string, sections: seq<string>, parsed: ParsedPath)
    requires SlugName(slugify, parsed) == "index"
    ensures ComputePath(slugify, sections, parsed) == SlugDir(slugify, sections)
    ensures sections == [] ==> ComputePath(slugify, sections, parsed) == ""
  {
  }

  /** Any other file at the root maps to its slugified name. */
  lemma ComputePathRootFile(slugify: string -> string, parsed: ParsedPath)
    requires SlugName(slugify, parsed) != "index"
    ensures ComputePath(slugify, [], parsed) == SlugName(slugify, parsed)
  {
  }

  /**
   * When no slug contains `/`, the `/`-segments of the path are exactly the
   * slugified sections (`..` kept verbatim) followed by the slugified name,
   * which an `index` name drops.
   */
  lemma ComputePathSegments(slugify: string -> string, sections: seq<string>, parsed: ParsedPath)
    requires forall i :: 0 <= i < |sections| ==> '/' !in SlugSegment(slugify, sections[i])
    requires '/' !in SlugName(slugify, parsed)
    requires sections == [] || SlugDir(slugify, sections) != ""
    ensures SlugName(slugify, parsed) == "index" && sections != [] ==>
      Split(ComputePath(slugify, sections, parsed), '/') == SlugSegments(slugify, sections)
    ensures SlugName(slugify, parsed) != "index" ==>
      Split(ComputePath(slugify, sections, parsed), '/') == SlugSegments(slugify, sections) + [SlugName(slugify, parsed)]
  {
    var segments := SlugSegments(slugify, sections);
    var file := SlugName(slugify, parsed);
    if sections != [] {
      SplitJoin(segments, '/');
      if file != "index" {
        JoinSnoc(segments, file, "/");
        forall i | 0 <= i < |segments + [file]| ensures '/' !in (segments + [file])[i] {
          if i < |segments| {
            assert (segments + [file])[i] == segments[i];
          }
        }
        SplitJoin(segments + [file], '/');
      }
    } else if file != "index" {
      assert Join([file], "/") == file;
      SplitJoin([file], '/');
      assert segments + [file] == [file];
    }
  }

  /** `getSanitizedPath`: the canonical path of a file without the leading `/`. */
  function GetSanitizedPath(foreign: Foreign, file: string): (path: string)
    ensures var parsed := foreign.parse(file);
      && StartsWith(path, SlugDir(foreign.slugify, ComputeSections(parsed)))
      && (SlugName(foreign.slugify, parsed) != "index" ==> IsSuffix(SlugName(foreign.slugify, parsed), path))
      && (parsed.dir == "" ==> path == if SlugName(foreign.slugify, parsed) == "index" then "" else SlugName(foreign.slugify, parsed))
  {
    var parsed := foreign.parse(file);
    ComputePath(foreign.slugify, ComputeSections(parsed), parsed)
  }

  // ---------------------------------------------------------------------------
  // computeFileId and newFileIndex
  // ---------------------------------------------------------------------------

  /** `computeFileId`: the hex SHA-256 digest of the file's joined path. */
  function ComputeFileId(foreign: Foreign, filePath: string): (id: Digest)
  {
    foreign.sha256Hex(filePath)
  }

  /**
   * `newFileIndex`, with the file's modification time given: the identity,
   * type, canonical path and sections of `file` under `rootPath`, with no
   * fields yet.
   */
  function NewFileIndex(foreign: Foreign, typeName: string, rootPath: string, file: string, modifiedDate: int): (index: FileIndex)
    ensures index.id == ComputeFileId(foreign, foreign.join(rootPath, file)) && IsHexDigest(index.id)
    ensures index.typeName == typeName && index.modifiedDate == modifiedDate && index.fields == map[]
    ensures index.sections == ComputeSections(foreign.parse(file))
    ensures |index.path| >= 1 && index.path[0] == '/'
    ensures index.path[1..] == GetSanitizedPath(foreign, file)
  {
    var filePath := foreign.join(rootPath, file);
    var parsed := foreign.parse(file);
    var sections := ComputeSections(parsed);
    FileIndex(
      ComputeFileId(foreign, filePath),
      typeName,
      "/" + ComputePath(foreign.slugify, sections, parsed),
      modifiedDate,
      sections,
      map[])
  }

  /** A root-level `index` file has path `/`. */
  lemma RootIndexPath(foreign: Foreign, typeName: string, rootPath: string, file: string, modifiedDate: int)
    requires foreign.parse(file).dir == ""
    requires SlugName(foreign.slugify, foreign.parse(file)) == "index"
    ensures NewFileIndex(foreign, typeName, rootPath, file, modifiedDate).path == "/"
  {
  }

  /**
   * The identity depends on the joined path alone: not on the pipeline, the
   * modification time or anything else about the file.
   */
  lemma IdentityByLocation(foreign: Foreign, t1: string, r1: string, f1: string, m1: int, t2: string, r2: string, f2: string, m2: int)
    requires foreign.join(r1, f1) == foreign.join(r2, f2)
    ensures NewFileIndex(foreign, t1, r1, f1, m1).id == NewFileIndex(foreign, t2, r2, f2, m2).id
  {
  }

  /**
   * With slugs that leave these names alone, `guide/index.md` (section
   * `guide`) maps to `guide` and `guide/intro.md` to `guide/intro`.
   */
  lemma IndexFlatteningExample(slugify: string -> string)
    requires slugify("guide") == "guide" && slugify("index") == "index" && slugify("intro") == "intro"
    ensures ComputePath(slugify, ["guide"], ParsedPath("guide", "index")) == "guide"
    ensures ComputePath(slugify, ["guide"], ParsedPath("guide", "intro")) == "guide/intro"
  {
    assert SlugSegments(slugify, ["guide"]) == ["guide"];
    NoMarkerKept("index");
    NoMarkerKept("intro");
  }
}
