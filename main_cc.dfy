/**
 * The C++ program: scan the dump directory for `<appId>_<anything>.png`, resolve app ids to
 * titles through the `dumpapptitle.txt` cache and the store page, rewrite the cache, and plan
 * the move of every screenshot into `<dir>/<title>/`.
 */
module MainCc {
  import opened Wrappers
  import opened Text
  import opened Title
  import opened Records
  import opened Resolve
  import opened Ordering
  import opened Cache

  // ---------------------------------------------------------------------------------------------
  // Scanner

  /** `isInteger`: non-empty, and `find_first_not_of("0123456789")` finds nothing. */
  function IsInteger(s: string): (r: bool)
    ensures r <==> |s| > 0 && AllDigits(s)
  {
    var bad := FindFirstNotOf(s, DecimalDigits);
    assert bad.None? <==> AllDigits(s) by {
      if bad.Some? {
        DecimalDigitsAreDigits(s[bad.value]);
      } else {
        forall i | 0 <= i < |s| ensures IsDigit(s[i]) {
          DecimalDigitsAreDigits(s[i]);
        }
      }
    }
    |s| > 0 && bad.None?
  }

  /**
   * `std::filesystem::path::extension()` of a file name: from the last dot on, unless the name
   * is `.` or `..`, has no dot, or its only dot leads the name.
   */
  function Extension(name: string): (ext: string)
    ensures |ext| <= |name| && ext == name[|name| - |ext|..]
    ensures ext != "" <==> name != "." && name != ".." && |name| > 1 && '.' in name[1..]
    ensures ext != "" ==> ext[0] == '.' && '.' !in ext[1..]
  {
    if name == "." || name == ".." then ""
    else match LastIndexOfChar(name, '.')
      case None => ""
      case Some(i) => if i == 0 then "" else name[i..]
  }

  /** `stem()`: the file name without its extension. */
  function Stem(name: string): string
  {
    name[..|name| - |Extension(name)|]
  }

  /** The file has a `.png` extension exactly when its name ends in `.png` after something else. */
  lemma PngExtension(name: string)
    ensures Extension(name) == ".png" <==> |name| > 4 && EndsWith(name, ".png")
  {
    if |name| > 4 && EndsWith(name, ".png") {
      var i := |name| - 4;
      assert name[i] == '.';
      assert name[i + 1..] == "png";
      assert '.' !in name[i + 1..];
      var li := LastIndexOfChar(name, '.');
      assert li.Some?;
    }
  }

  /** The file name is `<id>_<anything>.png` with `id` a non-empty digit string. */
  predicate IsScreenshotName(name: string, id: string)
  {
    |id| > 0 && AllDigits(id) && StartsWith(name, id + "_") && EndsWith(name, ".png")
  }

  /** The filter of `collectPngFilesRecursively` applied to one directory entry. */
  function Accept(e: DirEntry): Option<PngFile<string>>
  {
    if !e.isFile || Extension(e.name) != ".png" then None
    else
      var stem := Stem(e.name);
      match IndexOfAny(stem, {'_'})
      case None => None
      case Some(x1) =>
        var appId := stem[..x1];
        if IsInteger(appId) then Some(PngFile(appId, e.path, e.name)) else None
  }

  /** Every accepted file is named `<id>_<anything>.png`, and its record keeps its path and name. */
  lemma {:induction false} AcceptSound(e: DirEntry)
    requires Accept(e).Some?
    ensures e.isFile && IsScreenshotName(e.name, Accept(e).value.appId)
    ensures Accept(e).value == PngFile(Accept(e).value.appId, e.path, e.name)
  {
    var name := e.name;
    PngExtension(name);
    var stem := Stem(name);
    var x1 := IndexOfAny(stem, {'_'}).value;
    assert name[..x1 + 1] == stem[..x1 + 1] == stem[..x1] + "_";
  }

  /** A screenshot name has a `.png` extension, and its stem is `<id>_<rest>`. */
  lemma {:induction false} ScreenshotStem(name: string, id: string)
    requires IsScreenshotName(name, id)
    ensures Extension(name) == ".png" && Stem(name) == name[..|name| - 4]
    ensures |id| < |name| - 4 && name[..|id|] == id && name[|id|] == '_'
  {
    ScreenshotIdPart(name, id);
    PngExtension(name);
  }

  /** The `<id>_` part of a screenshot name comes before its `.png`. */
  lemma {:induction false} ScreenshotIdPart(name: string, id: string)
    requires IsScreenshotName(name, id)
    ensures |id| < |name| - 4 && name[..|id|] == id && name[|id|] == '_'
  {
    var n := |id|;
    assert name[..n + 1] == id + "_";
    assert name[..n] == (id + "_")[..n];
    assert name[n] == (id + "_")[n] == '_';
    var tail := name[|name| - 4..];
    assert tail == ".png";
    assert forall k | |name| - 4 <= k < |name| :: name[k] == tail[k - (|name| - 4)] != '_';
  }

  /** Every file named `<id>_<anything>.png` is accepted, with app id `id`. */
  lemma {:induction false} AcceptComplete(e: DirEntry, id: string)
    requires e.isFile && IsScreenshotName(e.name, id)
    ensures Accept(e) == Some(PngFile(id, e.path, e.name))
  {
    var name, n := e.name, |id|;
    ScreenshotStem(name, id);
    var stem := Stem(name);
    assert stem[..n] == id;
    forall j | 0 <= j < n
      ensures stem[j] !in {'_'}
    {
      assert stem[j] == id[j] && IsDigit(id[j]);
    }
    IndexOfAnyAt(stem, {'_'}, n);
    assert IsInteger(id);
  }

  /** The screenshots of a scan, in the order the walk reports them. */
  function Scanned(entries: seq<DirEntry>): seq<PngFile<string>>
  {
    Kept(entries, Accept)
  }

  /** A record is in the scan exactly when some entry of the walk is accepted as that record. */
  lemma ScannedSpec(entries: seq<DirEntry>, r: PngFile<string>)
    ensures |Scanned(entries)| <= |entries|
    ensures r in Scanned(entries) <==> exists i | 0 <= i < |entries| :: Accept(entries[i]) == Some(r)
  {
    KeptSpec(entries, Accept, r);
  }

  // ---------------------------------------------------------------------------------------------
  // size_t arithmetic of `std::string`

  /** `std::string::npos`, the largest `size_t`. */
  const Npos: nat := 0xFFFF_FFFF_FFFF_FFFF

  /** A `size_t` result: arithmetic wraps around modulo 2^64. */
  function SizeT(x: int): (r: nat)
    ensures r <= Npos
    ensures 0 <= x <= Npos ==> r == x
    ensures -(Npos + 1) <= x < 0 ==> r == x + Npos + 1
    ensures Npos < x <= 2 * Npos + 1 ==> r == x - (Npos + 1)
    ensures 0 <= x ==> r <= x
  {
    x % (Npos + 1)
  }

  /** `s.substr(pos, count)`: at most `count` characters from `pos`; `pos` past the end throws. */
  function Substr(s: string, pos: nat, count: nat): (r: string)
    requires pos <= |s|
    ensures |r| <= |s| - pos && r == s[pos..pos + |r|]
    ensures |r| == if count < |s| - pos then count else |s| - pos
  {
    s[pos..if count < |s| - pos then pos + count else |s|]
  }

  /** `std::string(s.c_str())`: the text up to the first NUL character. */
  function CStr(s: string): (r: string)
    ensures r <= s && '\0' !in r
    ensures |r| < |s| ==> s[|r|] == '\0'
  {
    match IndexOfChar(s, '\0')
    case None => s
    case Some(i) => s[..i]
  }

  // ---------------------------------------------------------------------------------------------
  // Title lookup

  /**
   * `out.substr(x1 + 7, x2 - x1 - 7)` where `x1` is the `<title>` and `x2` the
   * ` on Steam</title>` position: both the start and the length are `size_t` values.
   */
  function TitleSlice(out: string, x1: nat, x2: nat): string
    requires x1 + 7 <= |out|
  {
    var start := SizeT(x1 + 7);
    Substr(out, start, SizeT(x2 - start))
  }

  /**
   * The part of `getTitleFromId` after the fetch, on what the `wget | grep` pipe printed: the
   * title is cut from the first `<title>` to the first ` on Steam</title>`, then cut at a NUL
   * and normalised.
   */
  function ExtractTitle(out: string): Option<string>
  {
    var x1 := Find(out, TitleOpen);
    var x2 := Find(out, TitleClose);
    if x1.None? || x2.None? then None
    else Some(Normalize(CStr(TitleSlice(out, x1.value, x2.value))))
  }

  /** `getTitleFromId` after the fetch; `output` is `None` when `popen` failed. */
  function GetTitleFromId(output: Option<string>): Option<string>
  {
    match output
    case None => None
    case Some(out) => ExtractTitle(out)
  }

  /** A title is found exactly when the fetch ran and the page holds both markers. */
  lemma TitleFoundIff(output: Option<string>)
    ensures GetTitleFromId(output).Some? <==>
            output.Some? && Contains(output.value, TitleOpen) && Contains(output.value, TitleClose)
  {
  }

  /** The markers in order: the slice is exactly the text between them. */
  lemma TitleSliceBetween(out: string, x1: nat, x2: nat)
    requires x1 + 7 <= x2 <= |out| <= Npos
    ensures TitleSlice(out, x1, x2) == out[x1 + 7..x2]
  {
  }

  /** The closing marker first: the length `x2 - x1 - 7` wraps and the slice runs to the end. */
  lemma TitleSliceLate(out: string, x1: nat, x2: nat)
    requires x2 < x1 && x1 + 7 <= |out| <= Npos
    ensures TitleSlice(out, x1, x2) == out[x1 + 7..]
  {
  }

  /**
   * With `<title>` first, the title is the text strictly between the first `<title>` and the first
   * ` on Steam</title>`, cut at a NUL and normalised.
   */
  lemma {:induction false} TitleBetweenMarkers(out: string, x1: nat, x2: nat)
    requires Find(out, TitleOpen) == Some(x1) && Find(out, TitleClose) == Some(x2)
    requires x1 <= x2 && |out| <= Npos
    ensures x1 + 7 <= x2
    ensures ExtractTitle(out) == Some(Normalize(CStr(out[x1 + 7..x2])))
  {
    MarkersApart(out, x1, x2);
    TitleSliceBetween(out, x1, x2);
  }

  /**
   * When the first ` on Steam</title>` comes before the first `<title>`, `x2 - x1` wraps around
   * and the title is everything after `<title>`.
   */
  lemma {:induction false} TitleAfterLateOpen(out: string, x1: nat, x2: nat)
    requires Find(out, TitleOpen) == Some(x1) && Find(out, TitleClose) == Some(x2)
    requires x2 < x1 && |out| <= Npos
    ensures ExtractTitle(out) == Some(Normalize(CStr(out[x1 + 7..])))
  {
    TitleSliceLate(out, x1, x2);
  }

  // ---------------------------------------------------------------------------------------------
  // The `dumpapptitle.txt` cache

  /**
   * One line of the cache as `readDumpAppTitle` splits it: the id is everything before the first
   * comma and the title everything after it. Without a comma `find` gives `npos`, so the id is
   * the whole line and `npos + 1` wraps to 0, making the title the whole line as well.
   */
  function ParseLine(line: string): (string, string)
  {
    var delim: nat := match IndexOfChar(line, ',') case None => Npos case Some(i) => i;
    (Substr(line, 0, delim), Substr(line, SizeT(delim + 1), Npos))
  }

  /** A line with no comma names itself: `mapping[line] = line`. */
  lemma ParseLineNoComma(line: string)
    requires ',' !in line && |line| < Npos
    ensures ParseLine(line) == (line, line)
  {
    assert IndexOfChar(line, ',').None?;
    assert SizeT(Npos + 1) == 0;
    assert Substr(line, 0, Npos) == line[0..|line|] == line;
  }

  /** A line `<id>,<title>` whose id has no comma is read back as `(id, title)`. */
  lemma ParseDumpLine(id: string, title: string)
    requires ',' !in id && |id + "," + title| < Npos
    ensures ParseLine(DumpLine(id, title)) == (id, title)
  {
    var line := DumpLine(id, title);
    assert line[|id|] == ',';
    assert line[..|id|] == id;
    assert IndexOfChar(line, ',') == Some(|id|);
    assert Substr(line, 0, |id|) == id;
    assert Substr(line, |id| + 1, Npos) == line[|id| + 1..] == title;
  }

  /** Every line of the file as a pair, in file order. */
  function Parsed(lines: seq<string>): (r: seq<(string, string)>)
    ensures |r| == |lines|
    ensures forall i | 0 <= i < |lines| :: r[i] == ParseLine(lines[i])
  {
    seq(|lines|, i requires 0 <= i < |lines| => ParseLine(lines[i]))
  }

  /** What reading the lines of the cache into `mapping` leaves in it. */
  function Load(lines: seq<string>, mapping: map<string, string>): map<string, string>
  {
    Assign(Parsed(lines), mapping)
  }

  /** Reading one more line stores its pair over what the earlier lines left. */
  lemma LoadStep(lines: seq<string>, i: nat, mapping: map<string, string>)
    requires i < |lines|
    ensures Load(lines[..i + 1], mapping) == Load(lines[..i], mapping)[ParseLine(lines[i]).0 := ParseLine(lines[i]).1]
  {
    assert Parsed(lines[..i + 1])[..i] == Parsed(lines[..i]);
  }

  /**
   * `readDumpAppTitle`: `content` is the file, `None` when it cannot be opened (then the map is
   * left as it was); otherwise every line is stored, a later line overriding an earlier one.
   */
  method ReadDump(content: Option<string>, mapping: map<string, string>) returns (m: map<string, string>)
    ensures content.None? ==> m == mapping
    ensures content.Some? ==> m == Load(Lines(content.value), mapping)
  {
    m := mapping;
    if content.Some? {
      var lines := Lines(content.value);
      for i := 0 to |lines|
        invariant m == Load(lines[..i], mapping)
      {
        LoadStep(lines, i, mapping);
        var (appId, appTitle) := ParseLine(lines[i]);
        m := m[appId := appTitle];
      }
      assert lines[..|lines|] == lines;
    }
  }

  /** `iter.first << ',' << iter.second`. */
  function DumpLine(id: string, title: string): string
  {
    id + "," + title
  }

  /** The file `writeDumpAppTitle` writes when it visits the keys `order`: one line per key, each ended by `std::endl`. */
  function Render(order: seq<string>, m: map<string, string>): string
    requires forall k | k in order :: k in m
  {
    if order == [] then ""
    else DumpLine(order[0], m[order[0]]) + "\n" + Render(order[1..], m)
  }

  /** Writing one more key appends its line. */
  lemma {:induction false} RenderAppend(order: seq<string>, k: string, m: map<string, string>)
    requires forall x | x in order :: x in m
    requires k in m
    ensures Render(order + [k], m) == Render(order, m) + DumpLine(k, m[k]) + "\n"
  {
    if order != [] {
      assert (order + [k])[1..] == order[1..] + [k];
      RenderAppend(order[1..], k, m);
    }
  }

  /**
   * `writeDumpAppTitle`: the returned text is what the file holds afterwards; `std::map` visits
   * its keys in increasing order.
   */
  method WriteDump(m: map<string, string>) returns (text: string)
    ensures text == Render(SortedKeys(m.Keys), m)
  {
    var order := SortedKeys(m.Keys);
    text := "";
    for i := 0 to |order|
      invariant text == Render(order[..i], m)
    {
      assert order[..i + 1] == order[..i] + [order[i]];
      RenderAppend(order[..i], order[i], m);
      text := text + DumpLine(order[i], m[order[i]]) + "\n";
    }
    assert order[..|order|] == order;
  }

  /** A cache whose ids hold no comma or newline and whose titles hold no newline. */
  predicate Storable(m: map<string, string>)
  {
    forall k | k in m :: ',' !in k && '\n' !in k && '\n' !in m[k] && |DumpLine(k, m[k])| < Npos
  }

  /** The lines of a rendered cache are its lines, one per key. */
  lemma {:induction false} LinesOfRender(order: seq<string>, m: map<string, string>)
    requires forall k | k in order :: k in m
    requires Storable(m)
    ensures Parsed(Lines(Render(order, m))) == Listing(order, m)
  {
    if order != [] {
      var k := order[0];
      var rest := Render(order[1..], m);
      assert Lines(Render(order, m)) == [DumpLine(k, m[k])] + Lines(rest) by {
        LinesCons(DumpLine(k, m[k]), rest);
      }
      LinesOfRender(order[1..], m);
      assert ParseLine(DumpLine(k, m[k])) == (k, m[k]) by {
        ParseDumpLine(k, m[k]);
      }
      ParsedCons(DumpLine(k, m[k]), Lines(rest));
      ListingCons(order, m);
    }
  }

  lemma ParsedCons(line: string, lines: seq<string>)
    ensures Parsed([line] + lines) == [ParseLine(line)] + Parsed(lines)
  {
  }

  lemma ListingCons(order: seq<string>, m: map<string, string>)
    requires order != [] && forall k | k in order :: k in m
    ensures Listing(order, m) == [(order[0], m[order[0]])] + Listing(order[1..], m)
  {
  }

  /** Reading back the file `writeDumpAppTitle` wrote into an empty map gives the same map. */
  lemma DumpRoundTrip(m: map<string, string>)
    requires Storable(m)
    ensures Load(Lines(Render(SortedKeys(m.Keys), m)), map[]) == m
  {
    var order := SortedKeys(m.Keys);
    SortedKeysSpec(m.Keys);
    LinesOfRender(order, m);
    ListingRoundTrip(order, m);
  }

  // ---------------------------------------------------------------------------------------------
  // Categorisation

  /**
   * The names of a POSIX path as `std::filesystem::path` iterates them: the text between
   * separators, where a run of separators counts as one.
   */
  function Segments(p: string): seq<string>
    decreases |p|
  {
    match IndexOfChar(p, '/')
    case None => if p == [] then [] else [p]
    case Some(i) => (if i == 0 then [] else [p[..i]]) + Segments(p[i + 1..])
  }

  /**
   * `sourcePath != targetPath` is false: the two paths have the same root directory, the same
   * names and the same trailing separator.
   */
  predicate SamePath(a: string, b: string)
  {
    StartsWith(a, "/") == StartsWith(b, "/") && EndsWith(a, "/") == EndsWith(b, "/") &&
    Segments(a) == Segments(b)
  }

  /** A name followed by a separator is the first name of the path, unless it is empty. */
  lemma SegmentsCons(a: string, rest: string)
    requires '/' !in a
    ensures Segments(a + "/" + rest) == (if a == [] then [] else [a]) + Segments(rest)
  {
    var s := a + "/" + rest;
    IndexOfCharAt(s, '/', |a|) by {
      assert s[..|a|] == a;
    }
    assert s[..|a|] == a && s[|a| + 1..] == rest;
  }

  /** A doubled separator after the first name adds no name. */
  lemma DoubleSlashFirst(a: string, b: string)
    requires '/' !in a
    ensures Segments(a + "//" + b) == Segments(a + "/" + b)
  {
    assert a + "//" + b == a + "/" + ("/" + b);
    SegmentsCons(a, "/" + b);
    LeadingSlash(b);
    SegmentsCons(a, b);
  }

  /** A leading separator adds no name. */
  lemma LeadingSlash(b: string)
    ensures Segments("/" + b) == Segments(b)
  {
    IndexOfCharAt("/" + b, '/', 0);
    assert ("/" + b)[1..] == b;
  }

  /** Cutting `a` at its first separator, with `tail` behind it. */
  lemma CutAtSeparator(a: string, i: nat, tail: string)
    requires i < |a| && a[i] == '/'
    ensures a + tail == a[..i] + "/" + (a[i + 1..] + tail)
  {
    assert a == a[..i] + "/" + a[i + 1..];
  }

  /** Splitting off the first name of `a + sep + b`, where `a` holds a separator. */
  lemma SegmentsAfterFirst(a: string, sep: string, b: string)
    requires '/' in a
    ensures var i := IndexOfChar(a, '/').value;
            Segments(a + sep + b) == (if i == 0 then [] else [a[..i]]) + Segments(a[i + 1..] + sep + b)
  {
    var i := IndexOfChar(a, '/').value;
    CutAtSeparator(a, i, sep + b);
    assert a + sep + b == a + (sep + b);
    assert a[i + 1..] + sep + b == a[i + 1..] + (sep + b);
    SegmentsCons(a[..i], a[i + 1..] + (sep + b));
  }

  /** A doubled separator adds no name. */
  lemma {:induction false} SegmentsDoubleSlash(a: string, b: string)
    ensures Segments(a + "//" + b) == Segments(a + "/" + b)
    decreases |a|
  {
    if '/' in a {
      var i := IndexOfChar(a, '/').value;
      SegmentsAfterFirst(a, "//", b);
      SegmentsAfterFirst(a, "/", b);
      SegmentsDoubleSlash(a[i + 1..], b);
    } else {
      DoubleSlashFirst(a, b);
    }
  }

  /** A doubled separator changes neither the first nor the last character. */
  lemma DoubleSlashEnds(a: string, b: string)
    ensures StartsWith(a + "//" + b, "/") == StartsWith(a + "/" + b, "/")
    ensures EndsWith(a + "//" + b, "/") == EndsWith(a + "/" + b, "/")
  {
    var s2, s1 := a + "//" + b, a + "/" + b;
    if a != [] {
      assert s2[..1] == a[..1] == s1[..1];
    }
    if b != [] {
      assert s2[|s2| - 1..] == b[|b| - 1..] == s1[|s1| - 1..];
    }
  }

  /** Paths that differ only by a doubled separator compare equal. */
  lemma SamePathDoubleSlash(a: string, b: string)
    ensures SamePath(a + "//" + b, a + "/" + b)
  {
    SegmentsDoubleSlash(a, b);
    DoubleSlashEnds(a, b);
  }

  /**
   * Given a directory argument with a trailing separator, the target `"<dir>/<title>/<name>"`
   * still names the walk's path `<dir><title>/<name>`.
   */
  lemma TrailingSeparatorDir(d: string, title: string, name: string)
    ensures SamePath(TargetPath(d + "/", title, name), d + "/" + title + "/" + name)
  {
    assert TargetPath(d + "/", title, name) == d + "//" + (title + "/" + name);
    assert d + "/" + title + "/" + name == d + "/" + (title + "/" + name);
    SamePathDoubleSlash(d, title + "/" + name);
  }

  /** The move one screenshot needs, if its id is known and it is not in place yet. */
  function MoveOf(dir: string, m: map<string, string>, f: PngFile<string>): Option<Move>
  {
    if f.appId !in m then None
    else
      var target := TargetPath(dir, m[f.appId], f.name);
      if SamePath(f.path, target) then None else Some(Move(f.path, target))
  }

  function MoveRule(dir: string, m: map<string, string>): PngFile<string> -> Option<Move>
  {
    f => MoveOf(dir, m, f)
  }

  /** The path reported for a screenshot whose id has no title. */
  function UnknownOf(m: map<string, string>, f: PngFile<string>): Option<string>
  {
    if f.appId in m then None else Some(f.path)
  }

  function UnknownRule(m: map<string, string>): PngFile<string> -> Option<string>
  {
    f => UnknownOf(m, f)
  }

  /** The renames of the categorise loop, in scan order. */
  function PlannedMoves(dir: string, files: seq<PngFile<string>>, m: map<string, string>): seq<Move>
  {
    Kept(files, MoveRule(dir, m))
  }

  /** The `[Unknown AppId]` reports of the categorise loop, in scan order. */
  function UnknownPaths(files: seq<PngFile<string>>, m: map<string, string>): seq<string>
  {
    Kept(files, UnknownRule(m))
  }

  /**
   * The categorise loop of `main`: a screenshot whose id has no title is reported; any other
   * is renamed to `<dir>/<title>/<name>` unless it is already there.
   */
  method Categorize(dir: string, files: seq<PngFile<string>>, m: map<string, string>)
    returns (moves: seq<Move>, unknown: seq<string>)
    ensures moves == PlannedMoves(dir, files, m)
    ensures unknown == UnknownPaths(files, m)
  {
    moves, unknown := [], [];
    for i := 0 to |files|
      invariant moves == Kept(files[..i], MoveRule(dir, m))
      invariant unknown == Kept(files[..i], UnknownRule(m))
    {
      assert files[..i + 1][..i] == files[..i];
      var info := files[i];
      if info.appId !in m {
        unknown := unknown + [info.path];
        continue;
      }
      var title := m[info.appId];
      var target := TargetPath(dir, title, info.name);
      if !SamePath(info.path, target) {
        moves := moves + [Move(info.path, target)];
      }
    }
    assert files[..|files|] == files;
  }

  /**
   * A move is planned exactly for a screenshot whose id has a title and that is not yet at
   * `<dir>/<title>/<name>`; it goes from the screenshot's path to that target.
   */
  lemma PlannedMovesSpec(dir: string, files: seq<PngFile<string>>, m: map<string, string>, mv: Move)
    ensures mv in PlannedMoves(dir, files, m) <==>
            exists i | 0 <= i < |files| ::
              files[i].appId in m && mv == Move(files[i].path, TargetPath(dir, m[files[i].appId], files[i].name)) &&
              !SamePath(files[i].path, mv.target)
  {
    KeptSpec(files, MoveRule(dir, m), mv);
  }

  /** A path is reported unknown exactly when a screenshot there has an id without a title. */
  lemma UnknownPathsSpec(files: seq<PngFile<string>>, m: map<string, string>, p: string)
    ensures p in UnknownPaths(files, m) <==>
            exists i | 0 <= i < |files| :: files[i].appId !in m && files[i].path == p
  {
    KeptSpec(files, UnknownRule(m), p);
  }

  /** The screenshots as a later scan finds them once the planned moves are done. */
  function Relocated(dir: string, files: seq<PngFile<string>>, m: map<string, string>): (r: seq<PngFile<string>>)
    ensures |r| == |files|
  {
    seq(|files|, i requires 0 <= i < |files| =>
      match MoveOf(dir, m, files[i])
      case Some(mv) => files[i].(path := mv.target)
      case None => files[i])
  }

  /** Categorising again with the same titles plans no move: every screenshot is in place. */
  lemma CategorizeIdempotent(dir: string, files: seq<PngFile<string>>, m: map<string, string>)
    ensures PlannedMoves(dir, Relocated(dir, files, m), m) == []
  {
    var r := Relocated(dir, files, m);
    forall i | 0 <= i < |r|
      ensures MoveRule(dir, m)(r[i]).None?
    {
      assert MoveRule(dir, m)(r[i]) == MoveOf(dir, m, r[i]);
    }
    KeptNone(r, MoveRule(dir, m));
  }

  // ---------------------------------------------------------------------------------------------
  // The whole run

  /**
   * `getTitleFromId` as the resolve loop sees it: `fetch(id)` is what the `wget | grep` pipe
   * prints for the store page of `id` (`None` when `popen` fails). The C++ program never aborts
   * the loop, so no reply is a fault.
   */
  function LookupOf(fetch: string -> Option<string>): string -> Reply
  {
    id => match GetTitleFromId(fetch(id)) case Some(t) => Found(t) case None => NotFound
  }

  /** The map `readDumpAppTitle` fills, starting from `main`'s empty map. */
  function CachedTitles(dump: Option<string>): map<string, string>
  {
    match dump
    case None => map[]
    case Some(text) => Load(Lines(text), map[])
  }

  /**
   * `main` after the argument check: scan, read the cache, resolve every id the cache lacks,
   * rewrite the cache, then categorise. `entries` is the directory walk, `dump` the cache file's
   * content and `fetch` the store lookup.
   */
  method RunMain(dir: string, entries: seq<DirEntry>, dump: Option<string>, fetch: string -> Option<string>)
    returns (files: seq<PngFile<string>>, titles: map<string, string>, written: string,
             moves: seq<Move>, unknown: seq<string>)
    ensures files == Scanned(entries)
    ensures titles == CachedTitles(dump) + Learned(Pending(AppIds(files), CachedTitles(dump).Keys), LookupOf(fetch))
    ensures written == Render(SortedKeys(titles.Keys), titles)
    ensures moves == PlannedMoves(dir, files, titles) && unknown == UnknownPaths(files, titles)
  {
    files := Collect(entries, Accept);
    var cached := ReadDump(dump, map[]);
    var queried, faulted;
    titles, queried, faulted := ResolveTitles(AppIds(files), cached, LookupOf(fetch));
    assert !faulted;
    written := WriteDump(titles);
    moves, unknown := Categorize(dir, files, titles);
  }
}
