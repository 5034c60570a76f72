/**
 * The C# port: the same pipeline as the C++ program, with app ids parsed into `int`, the
 * cache keyed by those ints, HTTP failures and a reversed title range ending the run, and
 * paths compared case-insensitively after `Path.GetFullPath`.
 */
module ProgramCs {
  import opened Wrappers
  import opened Text
  import opened Title
  import opened Records
  import opened Resolve
  import opened Cache

  // ---------------------------------------------------------------------------------------------
  // `int` app ids

  const Int32Min: int := -0x8000_0000
  const Int32Max: int := 0x7FFF_FFFF

  /** A C# `int`. */
  type Int32 = x: int | Int32Min <= x <= Int32Max

  /**
   * `int.TryParse` / `int.Parse` on the text of an id: an optional sign, then at least one
   * ASCII digit, with a value that fits in an `int`.
   */
  function ParseInt(s: string): Option<Int32>
  {
    var signed := |s| > 0 && (s[0] == '-' || s[0] == '+');
    var digits := if signed then s[1..] else s;
    if digits == [] || !AllDigits(digits) then None
    else
      var v: int := if signed && s[0] == '-' then -(DigitsValue(digits) as int) else DigitsValue(digits);
      if Int32Min <= v <= Int32Max then Some(v) else None
  }

  /** `{0}` of an `int` in `String.Format`: a minus sign for negatives, then the decimal digits. */
  function FormatInt(n: int): (s: string)
    ensures ',' !in s && '\n' !in s && '\r' !in s
  {
    if n < 0 then "-" + NatToDigits(-n) else NatToDigits(n)
  }

  /** Formatting an `int` and parsing the text back gives the same `int`. */
  lemma ParseFormat(n: Int32)
    ensures ParseInt(FormatInt(n)) == Some(n)
  {
    var s := FormatInt(n);
    if n < 0 {
      var m: nat := -(n as int);
      assert s[1..] == NatToDigits(m);
    } else {
      assert IsDigit(s[0]);
    }
  }

  /** Leading zeros are dropped, so `007` and `7` name the same app. */
  lemma ParseLeadingZero(s: string)
    requires |s| > 0 && AllDigits(s)
    ensures ParseInt("0" + s) == ParseInt(s)
  {
    DigitsValueLeadingZero(s);
    assert IsDigit(s[0]);
  }

  // ---------------------------------------------------------------------------------------------
  // Scanner

  /**
   * `FileInfo.Extension`: from the last dot of the name on, or empty when the name has no dot.
   * A trailing dot is an extension of its own, as on Unix.
   */
  function Extension(name: string): (ext: string)
    ensures |ext| <= |name| && ext == name[|name| - |ext|..]
    ensures ext != "" <==> '.' in name
    ensures ext != "" ==> ext[0] == '.' && '.' !in ext[1..]
  {
    match LastIndexOfChar(name, '.')
    case None => ""
    case Some(i) => name[i..]
  }

  /** The extension is `.png` exactly when the name ends in `.png`, even a bare `.png`. */
  lemma PngExtension(name: string)
    ensures Extension(name) == ".png" <==> EndsWith(name, ".png")
  {
    if EndsWith(name, ".png") {
      var i := |name| - 4;
      assert name[i] == '.';
      assert name[i + 1..] == "png";
      assert '.' !in name[i + 1..];
      var li := LastIndexOfChar(name, '.');
      assert li.Some?;
    }
  }

  /** `String.Split("_")`: the pieces between separators, in order; there is always one. */
  function Split(s: string, sep: char): (parts: seq<string>)
    ensures |parts| >= 1
    decreases |s|
  {
    match IndexOfChar(s, sep)
    case None => [s]
    case Some(i) => [s[..i]] + Split(s[i + 1..], sep)
  }

  /** `String.Join`: the pieces with a separator between each two. */
  function Join(parts: seq<string>, sep: char): string
    requires |parts| >= 1
    decreases |parts|
  {
    if |parts| == 1 then parts[0] else parts[0] + [sep] + Join(parts[1..], sep)
  }

  lemma JoinCons(first: string, rest: seq<string>, sep: char)
    requires |rest| >= 1
    ensures Join([first] + rest, sep) == first + [sep] + Join(rest, sep)
  {
    assert ([first] + rest)[1..] == rest;
  }

  /** Joining the pieces of a split gives back the string. */
  lemma {:induction false} JoinSplit(s: string, sep: char)
    ensures Join(Split(s, sep), sep) == s
    decreases |s|
  {
    match IndexOfChar(s, sep)
    case None =>
    case Some(i) =>
      var rest := Split(s[i + 1..], sep);
      JoinSplit(s[i + 1..], sep);
      JoinCons(s[..i], rest, sep);
      assert s == s[..i] + [sep] + s[i + 1..];
  }

  /** No piece holds the separator; there are several pieces exactly when it occurs. */
  lemma {:induction false} SplitPieces(s: string, sep: char)
    ensures forall p | p in Split(s, sep) :: sep !in p
    ensures |Split(s, sep)| > 1 <==> sep in s
    decreases |s|
  {
    match IndexOfChar(s, sep)
    case None =>
    case Some(i) =>
      SplitPieces(s[i + 1..], sep);
  }

  /** The first piece is everything before the first separator. */
  lemma SplitFirst(s: string, sep: char, i: nat)
    requires IndexOfChar(s, sep) == Some(i)
    ensures Split(s, sep)[0] == s[..i]
  {
  }

  /**
   * The filter of `CollectPngFiles` on one file the walk lists (`GetFiles` lists files only):
   * a `.png` whose name has an `_` and whose text before the first `_` parses as an `int`.
   */
  function Accept(e: DirEntry): Option<PngFile<Int32>>
  {
    if Extension(e.name) != ".png" then None
    else
      var splits := Split(e.name, '_');
      if |splits| <= 1 then None
      else match ParseInt(splits[0])
        case None => None
        case Some(appId) => Some(PngFile(appId, e.path, e.name))
  }

  /** An accepted file is `<text>_<rest>.png`, where `<text>` has no `_` and parses to the id. */
  lemma AcceptSound(e: DirEntry)
    requires Accept(e).Some?
    ensures EndsWith(e.name, ".png") && '_' in e.name
    ensures var i := IndexOfChar(e.name, '_').value;
            ParseInt(e.name[..i]) == Some(Accept(e).value.appId)
    ensures Accept(e).value == PngFile(Accept(e).value.appId, e.path, e.name)
  {
    PngExtension(e.name);
    SplitPieces(e.name, '_');
    SplitFirst(e.name, '_', IndexOfChar(e.name, '_').value);
  }

  /** A `.png` whose text before the first `_` parses to `id` is accepted with that id. */
  lemma AcceptComplete(e: DirEntry, i: nat, id: Int32)
    requires EndsWith(e.name, ".png") && IndexOfChar(e.name, '_') == Some(i)
    requires ParseInt(e.name[..i]) == Some(id)
    ensures Accept(e) == Some(PngFile(id, e.path, e.name))
  {
    PngExtension(e.name);
    SplitPieces(e.name, '_');
    SplitFirst(e.name, '_', i);
  }

  /** The screenshots of a walk, in walk order. */
  function Scanned(entries: seq<DirEntry>): seq<PngFile<Int32>>
  {
    Kept(entries, Accept)
  }

  /** A record is in the scan exactly when some file of the walk is accepted as that record. */
  lemma ScannedSpec(entries: seq<DirEntry>, r: PngFile<Int32>)
    ensures |Scanned(entries)| <= |entries|
    ensures r in Scanned(entries) <==> exists i | 0 <= i < |entries| :: Accept(entries[i]) == Some(r)
  {
    KeptSpec(entries, Accept, r);
  }

  // ---------------------------------------------------------------------------------------------
  // Title lookup

  /**
   * The end of `GetAppTitleFromId` once both markers are found at `x1` and `x2`:
   * `Substring(x1 + 7, x2 - x1 - 7)` throws when the length is negative.
   */
  function TitleRange(page: string, x1: nat, x2: nat): Reply
    requires x1 + 7 <= |page| && x2 <= |page|
  {
    if x2 < x1 + 7 then Fault else Found(Normalize(page[x1 + 7..x2]))
  }

  /**
   * `GetAppTitleFromId` after the request: `response` is the page, `None` when
   * `GetStringAsync` throws, which ends the program. An empty page or a missing marker gives
   * `null`.
   */
  function GetAppTitleFromId(response: Option<string>): Reply
  {
    match response
    case None => Fault
    case Some(page) =>
      if page == [] then NotFound
      else
        var x1 := Find(page, TitleOpen);
        var x2 := Find(page, TitleClose);
        if x1.None? || x2.None? then NotFound
        else TitleRange(page, x1.value, x2.value)
  }

  /** Where both markers are found, the lookup ends in `TitleRange`. */
  lemma TitleAt(page: string, x1: nat, x2: nat)
    requires Find(page, TitleOpen) == Some(x1) && Find(page, TitleClose) == Some(x2)
    ensures x1 + 7 <= |page| && x2 <= |page|
    ensures GetAppTitleFromId(Some(page)) == TitleRange(page, x1, x2)
  {
  }

  /**
   * A fetched page gives a title exactly when it holds both markers with the first
   * `<title>` before the first ` on Steam</title>`, and then the title is the normalised text
   * between them.
   */
  lemma TitleFound(page: string, x1: nat, x2: nat)
    requires Find(page, TitleOpen) == Some(x1) && Find(page, TitleClose) == Some(x2)
    ensures GetAppTitleFromId(Some(page)).Found? <==> x1 <= x2
    ensures x1 <= x2 ==> x1 + 7 <= x2 && GetAppTitleFromId(Some(page)) == Found(Normalize(page[x1 + 7..x2]))
  {
    MarkersApart(page, x1, x2);
    TitleAt(page, x1, x2);
  }

  /** A fetched page fails the run exactly when both markers occur and the closing one comes first. */
  lemma TitleFault(page: string)
    ensures GetAppTitleFromId(Some(page)).Fault? <==>
            Contains(page, TitleOpen) && Contains(page, TitleClose) &&
            Find(page, TitleClose).value < Find(page, TitleOpen).value
  {
    var x1, x2 := Find(page, TitleOpen), Find(page, TitleClose);
    if x1.Some? && x2.Some? {
      MarkersApart(page, x1.value, x2.value);
    }
  }

  /**
   * A fetched page gives `null` exactly when it is empty or lacks one of the two markers; a
   * page holding both gives a title or a throw.
   */
  lemma TitleNotFound(page: string)
    ensures GetAppTitleFromId(Some(page)) == NotFound <==>
            page == [] || !Contains(page, TitleOpen) || !Contains(page, TitleClose)
  {
    var x1, x2 := Find(page, TitleOpen), Find(page, TitleClose);
    if x1.Some? && x2.Some? {
      TitleFound(page, x1.value, x2.value);
      TitleFault(page);
    }
  }

  /** The store lookup: `fetch(id)` is the page of `id`, `None` when the request throws. */
  function LookupOf(fetch: Int32 -> Option<string>): Int32 -> Reply
  {
    (id: Int32) => GetAppTitleFromId(fetch(id))
  }

  // ---------------------------------------------------------------------------------------------
  // The `dumpapptitle.txt` cache

  /**
   * `File.ReadAllLines`: lines end at `\n`, `\r` or `\r\n`; a final line without an end still
   * counts, a final end does not start an empty line.
   */
  function ReadAllLines(s: string): seq<string>
    decreases |s|
  {
    if s == [] then []
    else match IndexOfAny(s, {'\n', '\r'})
      case None => [s]
      case Some(i) =>
        var skip := if s[i] == '\r' && i + 1 < |s| && s[i + 1] == '\n' then 2 else 1;
        [s[..i]] + ReadAllLines(s[i + skip..])
  }

  /** `Environment.NewLine`, which `WriteLine` ends each line with. */
  predicate IsNewLine(nl: string)
  {
    nl == "\n" || nl == "\r\n"
  }

  /** A line ended by either newline is read back as that line, then whatever follows. */
  lemma ReadAllLinesCons(a: string, nl: string, rest: string)
    requires '\n' !in a && '\r' !in a && IsNewLine(nl)
    ensures ReadAllLines(a + nl + rest) == [a] + ReadAllLines(rest)
  {
    var s := a + nl + rest;
    assert s[..|a|] == a && s[|a|] == nl[0];
    IndexOfAnyAt(s, {'\n', '\r'}, |a|);
    assert s[|a| + |nl|..] == rest;
  }

  /**
   * One line of the cache as `ReadAppTitleDump` reads it: `None` where `Substring(0, -1)` (no
   * comma) or `int.Parse` throws.
   */
  function ParseDumpLine(line: string): Option<(Int32, string)>
  {
    match IndexOfChar(line, ',')
    case None => None
    case Some(i) =>
      match ParseInt(line[..i])
      case None => None
      case Some(id) => Some((id, line[i + 1..]))
  }

  /** `String.Format("{0},{1}", appId, appTitle)`. */
  function DumpLine(id: Int32, title: string): string
  {
    FormatInt(id) + "," + title
  }

  /** A written line is read back as the pair it was written from. */
  lemma ParseDumpLineOf(id: Int32, title: string)
    ensures ParseDumpLine(DumpLine(id, title)) == Some((id, title))
  {
    var f := FormatInt(id);
    var line := DumpLine(id, title);
    assert line[..|f|] == f && line[|f|] == ',';
    IndexOfCharAt(line, ',', |f|);
    ParseFormat(id);
    assert line[|f| + 1..] == title;
  }

  /** How many lines are stored before the first one that throws. */
  function GoodCount(lines: seq<string>): (n: nat)
    ensures n <= |lines|
    ensures forall i | 0 <= i < n :: ParseDumpLine(lines[i]).Some?
    ensures n < |lines| ==> ParseDumpLine(lines[n]).None?
  {
    if lines == [] || ParseDumpLine(lines[0]).None? then 0
    else
      var n := 1 + GoodCount(lines[1..]);
      assert forall i | 1 <= i <= n && i < |lines| :: lines[i] == lines[1..][i - 1];
      n
  }

  /** The first line that throws is where the count stops. */
  lemma GoodCountAt(lines: seq<string>, n: nat)
    requires n <= |lines| && forall i | 0 <= i < n :: ParseDumpLine(lines[i]).Some?
    requires n < |lines| ==> ParseDumpLine(lines[n]).None?
    ensures GoodCount(lines) == n
  {
  }

  /** The pairs of lines that all parse. */
  function Pairs(lines: seq<string>): (r: seq<(Int32, string)>)
    requires forall i | 0 <= i < |lines| :: ParseDumpLine(lines[i]).Some?
    ensures |r| == |lines|
    ensures forall i | 0 <= i < |lines| :: r[i] == ParseDumpLine(lines[i]).value
  {
    seq(|lines|, i requires 0 <= i < |lines| => ParseDumpLine(lines[i]).value)
  }

  /**
   * What reading the cache leaves in the dictionary: the lines up to the first one that throws
   * are stored, a later line overriding an earlier one; the exception is caught and the rest
   * is skipped.
   */
  function LoadDump(lines: seq<string>, dict: map<Int32, string>): map<Int32, string>
  {
    Assign(Pairs(lines[..GoodCount(lines)]), dict)
  }

  /** Nothing after a line that throws is read. */
  lemma LoadDumpStops(good: seq<string>, bad: string, rest: seq<string>, dict: map<Int32, string>)
    requires forall i | 0 <= i < |good| :: ParseDumpLine(good[i]).Some?
    requires ParseDumpLine(bad).None?
    ensures LoadDump(good + [bad] + rest, dict) == LoadDump(good, dict)
  {
    var lines := good + [bad] + rest;
    assert lines[|good|] == bad;
    assert forall i | 0 <= i < |good| :: lines[i] == good[i];
    GoodCountAt(lines, |good|);
    GoodCountAt(good, |good|);
    assert lines[..|good|] == good == good[..|good|];
  }

  /** The first `i` lines all parsed, and `d` holds what storing them into `dict` gave. */
  ghost predicate Reading(lines: seq<string>, dict: map<Int32, string>, i: nat, d: map<Int32, string>)
  {
    i <= |lines| && (forall j | 0 <= j < i :: ParseDumpLine(lines[j]).Some?) &&
    d == Assign(Pairs(lines[..i]), dict)
  }

  lemma PairsStep(lines: seq<string>, i: nat)
    requires i < |lines| && forall j | 0 <= j <= i :: ParseDumpLine(lines[j]).Some?
    ensures Pairs(lines[..i + 1]) == Pairs(lines[..i]) + [ParseDumpLine(lines[i]).value]
  {
  }

  lemma ReadingStep(lines: seq<string>, dict: map<Int32, string>, i: nat, d: map<Int32, string>)
    requires Reading(lines, dict, i, d) && i < |lines| && ParseDumpLine(lines[i]).Some?
    ensures Reading(lines, dict, i + 1, d[ParseDumpLine(lines[i]).value.0 := ParseDumpLine(lines[i]).value.1])
  {
    var prev := Pairs(lines[..i]);
    var pairs := prev + [ParseDumpLine(lines[i]).value];
    PairsStep(lines, i);
    assert pairs[..|pairs| - 1] == prev;
  }

  lemma ReadingDone(lines: seq<string>, dict: map<Int32, string>, i: nat, d: map<Int32, string>)
    requires Reading(lines, dict, i, d) && (i == |lines| || ParseDumpLine(lines[i]).None?)
    ensures d == LoadDump(lines, dict)
  {
    GoodCountAt(lines, i);
  }

  /**
   * `ReadAppTitleDump`: `content` is the file, `None` when it cannot be read (the exception
   * is caught and the dictionary left as it was).
   */
  method ReadAppTitleDump(content: Option<string>, dict: map<Int32, string>) returns (d: map<Int32, string>)
    ensures content.None? ==> d == dict
    ensures content.Some? ==> d == LoadDump(ReadAllLines(content.value), dict)
  {
    d := dict;
    if content.Some? {
      var lines := ReadAllLines(content.value);
      var i := 0;
      assert Reading(lines, dict, 0, d) by {
        assert lines[..0] == [];
      }
      while i < |lines|
        invariant Reading(lines, dict, i, d)
      {
        var parsed := ParseDumpLine(lines[i]);
        if parsed.None? {
          ReadingDone(lines, dict, i, d);
          return;
        }
        ReadingStep(lines, dict, i, d);
        d := d[parsed.value.0 := parsed.value.1];
        i := i + 1;
      }
      ReadingDone(lines, dict, i, d);
    }
  }

  /** Lines each followed by `nl`, as consecutive `WriteLine` calls leave them. */
  function Terminated(lines: seq<string>, nl: string): string
  {
    if lines == [] then "" else lines[0] + nl + Terminated(lines[1..], nl)
  }

  /** One more `WriteLine` appends its line and `nl`. */
  lemma {:induction false} TerminatedAppend(lines: seq<string>, x: string, nl: string)
    ensures Terminated(lines + [x], nl) == Terminated(lines, nl) + x + nl
  {
    if lines != [] {
      assert (lines + [x])[1..] == lines[1..] + [x];
      TerminatedAppend(lines[1..], x, nl);
    }
  }

  /** Lines without line breaks, written with either newline, are read back unchanged. */
  lemma {:induction false} ReadAllLinesTerminated(lines: seq<string>, nl: string)
    requires forall i | 0 <= i < |lines| :: '\n' !in lines[i] && '\r' !in lines[i]
    requires IsNewLine(nl)
    ensures ReadAllLines(Terminated(lines, nl)) == lines
  {
    if lines != [] {
      ReadAllLinesCons(lines[0], nl, Terminated(lines[1..], nl));
      ReadAllLinesTerminated(lines[1..], nl);
    }
  }

  /** The lines written for the keys `order`. */
  function DumpLines(order: seq<Int32>, d: map<Int32, string>): (r: seq<string>)
    requires forall k | k in order :: k in d
    ensures |r| == |order|
    ensures forall i | 0 <= i < |order| :: r[i] == DumpLine(order[i], d[order[i]])
  {
    seq(|order|, i requires 0 <= i < |order| => DumpLine(order[i], d[order[i]]))
  }

  /** The file `WriteAppTitleDump` writes when the dictionary yields the keys `order`. */
  function Render(order: seq<Int32>, d: map<Int32, string>, nl: string): string
    requires forall k | k in order :: k in d
  {
    Terminated(DumpLines(order, d), nl)
  }

  /** Writing one more pair appends its line. */
  lemma RenderAppend(order: seq<Int32>, k: Int32, d: map<Int32, string>, nl: string)
    requires forall x | x in order :: x in d
    requires k in d
    ensures Render(order + [k], d, nl) == Render(order, d, nl) + DumpLine(k, d[k]) + nl
  {
    assert DumpLines(order + [k], d) == DumpLines(order, d) + [DumpLine(k, d[k])];
    TerminatedAppend(DumpLines(order, d), DumpLine(k, d[k]), nl);
  }

  /** The loop state of `WriteAppTitleDump`: `order` written, `rest` still to write. */
  ghost predicate Writing(d: map<Int32, string>, nl: string, rest: set<Int32>, order: seq<Int32>, text: string)
  {
    && (forall k | k in order :: k in d && k !in rest)
    && (forall k | k in d :: k in order || k in rest)
    && rest <= d.Keys
    && (forall i, j | 0 <= i < j < |order| :: order[i] != order[j])
    && text == Render(order, d, nl)
  }

  lemma WritingStep(d: map<Int32, string>, nl: string, rest: set<Int32>, order: seq<Int32>, text: string, k: Int32)
    requires Writing(d, nl, rest, order, text) && k in rest
    ensures Writing(d, nl, rest - {k}, order + [k], text + DumpLine(k, d[k]) + nl)
  {
    RenderAppend(order, k, d, nl);
  }

  /**
   * `WriteAppTitleDump`: one line per entry, each ended by `nl`. A `Dictionary` does not
   * promise an order, so the order is any listing of its keys, each key once; `order` reports
   * the one taken.
   */
  method WriteAppTitleDump(d: map<Int32, string>, nl: string) returns (text: string, order: seq<Int32>)
    ensures forall k | k in order :: k in d
    ensures forall k | k in d :: k in order
    ensures forall i, j | 0 <= i < j < |order| :: order[i] != order[j]
    ensures text == Render(order, d, nl)
  {
    text, order := "", [];
    var rest := d.Keys;
    while rest != {}
      invariant Writing(d, nl, rest, order, text)
      decreases |rest|
    {
      var k :| k in rest;
      WritingStep(d, nl, rest, order, text, k);
      text := text + DumpLine(k, d[k]) + nl;
      order := order + [k];
      rest := rest - {k};
    }
  }

  /** Titles that hold no line break. */
  predicate OneLineTitles(d: map<Int32, string>)
  {
    forall k | k in d :: '\n' !in d[k] && '\r' !in d[k]
  }

  /** Reading the written file line by line gives the written lines. */
  lemma LinesOfRender(order: seq<Int32>, d: map<Int32, string>, nl: string)
    requires forall k | k in order :: k in d
    requires OneLineTitles(d) && IsNewLine(nl)
    ensures ReadAllLines(Render(order, d, nl)) == DumpLines(order, d)
  {
    var lines := DumpLines(order, d);
    forall i | 0 <= i < |lines|
      ensures '\n' !in lines[i] && '\r' !in lines[i]
    {
      var k := order[i];
      assert lines[i] == FormatInt(k) + "," + d[k];
    }
    ReadAllLinesTerminated(lines, nl);
  }

  /** Every written line parses, back to the pair it was written from. */
  lemma PairsOfDumpLines(order: seq<Int32>, d: map<Int32, string>)
    requires forall k | k in order :: k in d
    ensures forall i | 0 <= i < |order| :: ParseDumpLine(DumpLines(order, d)[i]).Some?
    ensures Pairs(DumpLines(order, d)) == Listing(order, d)
  {
    forall i | 0 <= i < |order|
      ensures ParseDumpLine(DumpLines(order, d)[i]) == Some((order[i], d[order[i]]))
    {
      ParseDumpLineOf(order[i], d[order[i]]);
    }
  }

  /**
   * Reading back the file `WriteAppTitleDump` wrote into an empty dictionary gives the same
   * dictionary, whatever order it was written in, as long as no title holds a line break.
   */
  lemma DumpRoundTrip(order: seq<Int32>, d: map<Int32, string>, nl: string)
    requires forall k | k in order :: k in d
    requires forall k | k in d :: k in order
    requires OneLineTitles(d) && IsNewLine(nl)
    ensures LoadDump(ReadAllLines(Render(order, d, nl)), map[]) == d
  {
    var lines := DumpLines(order, d);
    LinesOfRender(order, d, nl);
    PairsOfDumpLines(order, d);
    GoodCountAt(lines, |lines|);
    assert lines[..|lines|] == lines;
    ListingRoundTrip(order, d);
  }

  // ---------------------------------------------------------------------------------------------
  // Categorisation

  /**
   * The move one screenshot needs, if its id is known: to `GetFullPath("<dir>/<title>/<name>")`,
   * unless that equals its path once both are lower-cased. `full` is `Path.GetFullPath`.
   */
  function MoveOf(dir: string, full: string -> string, d: map<Int32, string>, f: PngFile<Int32>): Option<Move>
  {
    if f.appId !in d then None
    else
      var target := full(TargetPath(dir, d[f.appId], f.name));
      if Lower(f.path) == Lower(target) then None else Some(Move(f.path, target))
  }

  function MoveRule(dir: string, full: string -> string, d: map<Int32, string>): PngFile<Int32> -> Option<Move>
  {
    f => MoveOf(dir, full, d, f)
  }

  /** The file name reported for a screenshot whose id has no title. */
  function UnknownOf(d: map<Int32, string>, f: PngFile<Int32>): Option<string>
  {
    if f.appId in d then None else Some(f.name)
  }

  function UnknownRule(d: map<Int32, string>): PngFile<Int32> -> Option<string>
  {
    f => UnknownOf(d, f)
  }

  /** The renames of the categorise loop, in scan order. */
  function PlannedMoves(dir: string, full: string -> string, files: seq<PngFile<Int32>>, d: map<Int32, string>): seq<Move>
  {
    Kept(files, MoveRule(dir, full, d))
  }

  /** The `[Unknown AppId]` reports of the categorise loop, in scan order. */
  function UnknownNames(files: seq<PngFile<Int32>>, d: map<Int32, string>): seq<string>
  {
    Kept(files, UnknownRule(d))
  }

  /**
   * The categorise loop of `Main`: a screenshot whose id has no title is reported by name; any
   * other is moved unless it is already in place, and `numMoved` counts the moves.
   */
  method Categorize(dir: string, full: string -> string, files: seq<PngFile<Int32>>, d: map<Int32, string>)
    returns (moves: seq<Move>, unknown: seq<string>, numMoved: int)
    ensures moves == PlannedMoves(dir, full, files, d)
    ensures unknown == UnknownNames(files, d)
    ensures numMoved == |moves|
  {
    moves, unknown, numMoved := [], [], 0;
    for i := 0 to |files|
      invariant moves == Kept(files[..i], MoveRule(dir, full, d))
      invariant unknown == Kept(files[..i], UnknownRule(d))
      invariant numMoved == |moves|
    {
      KeptStep(files, MoveRule(dir, full, d), i);
      KeptStep(files, UnknownRule(d), i);
      var info := files[i];
      if info.appId !in d {
        unknown := unknown + [info.name];
        continue;
      }
      var title := d[info.appId];
      var targetPath := full(TargetPath(dir, title, info.name));
      if Lower(info.path) != Lower(targetPath) {
        moves := moves + [Move(info.path, targetPath)];
        numMoved := numMoved + 1;
      }
    }
    assert files[..|files|] == files;
  }

  /**
   * A move is planned exactly for a screenshot whose id has a title and whose path differs,
   * ignoring case, from the full target path; it goes from the path to that target.
   */
  lemma PlannedMovesSpec(dir: string, full: string -> string, files: seq<PngFile<Int32>>, d: map<Int32, string>, mv: Move)
    ensures mv in PlannedMoves(dir, full, files, d) <==>
            exists i | 0 <= i < |files| ::
              files[i].appId in d && mv == Move(files[i].path, full(TargetPath(dir, d[files[i].appId], files[i].name))) &&
              Lower(files[i].path) != Lower(mv.target)
  {
    KeptSpec(files, MoveRule(dir, full, d), mv);
  }

  /** A name is reported unknown exactly when a screenshot of that name has an id without a title. */
  lemma UnknownNamesSpec(files: seq<PngFile<Int32>>, d: map<Int32, string>, name: string)
    ensures name in UnknownNames(files, d) <==>
            exists i | 0 <= i < |files| :: files[i].appId !in d && files[i].name == name
  {
    KeptSpec(files, UnknownRule(d), name);
  }

  /** The screenshots as a later scan finds them once the planned moves are done. */
  function Relocated(dir: string, full: string -> string, files: seq<PngFile<Int32>>, d: map<Int32, string>): (r: seq<PngFile<Int32>>)
    ensures |r| == |files|
  {
    seq(|files|, i requires 0 <= i < |files| =>
      match MoveOf(dir, full, d, files[i])
      case Some(mv) => files[i].(path := mv.target)
      case None => files[i])
  }

  /** Categorising again with the same titles moves nothing. */
  lemma CategorizeIdempotent(dir: string, full: string -> string, files: seq<PngFile<Int32>>, d: map<Int32, string>)
    ensures PlannedMoves(dir, full, Relocated(dir, full, files, d), d) == []
  {
    var r := Relocated(dir, full, files, d);
    forall i | 0 <= i < |r|
      ensures MoveRule(dir, full, d)(r[i]).None?
    {
      assert MoveRule(dir, full, d)(r[i]) == MoveOf(dir, full, d, r[i]);
    }
    KeptNone(r, MoveRule(dir, full, d));
  }

  // ---------------------------------------------------------------------------------------------
  // The whole run

  /** The dictionary `ReadAppTitleDump` fills, starting from `Main`'s empty one. */
  function CachedTitles(dump: Option<string>): map<Int32, string>
  {
    match dump
    case None => map[]
    case Some(text) => LoadDump(ReadAllLines(text), map[])
  }

  /** How a run of `Main` ends. */
  datatype Outcome =
    | NoInput
      // `Console.ReadLine` gave `null`: nothing is done
    | MissingDirectory
      // `CollectPngFiles` threw because the folder does not exist: nothing is done
    | LookupThrew(files: seq<PngFile<Int32>>, failedId: Int32)
      // a store request threw: the cache is not rewritten and nothing is moved
    | Finished(files: seq<PngFile<Int32>>, titles: map<Int32, string>, moves: seq<Move>,
               unknown: seq<string>, numMoved: int)

  /**
   * `Main` once the folder `pngDir` is known and its tree `entries` has been walked: scan, read
   * the cache, resolve every id the cache lacks, rewrite the cache, then categorise. `dump` is
   * the cache file's content (`None` when it cannot be read), `fetch` the store request (`None`
   * when it throws), `full` is `Path.GetFullPath` and `nl` is `Environment.NewLine`. `written`
   * is the new cache file and `order` the order the dictionary listed its keys in.
   */
  method Process(pngDir: string, entries: seq<DirEntry>, dump: Option<string>,
                 fetch: Int32 -> Option<string>, full: string -> string, nl: string)
    returns (r: Outcome, written: Option<string>, order: seq<Int32>)
    ensures r.LookupThrew? || r.Finished?
    ensures r.files == Scanned(entries)
    ensures var pending := Pending(AppIds(r.files), CachedTitles(dump).Keys);
            r.LookupThrew? <==> exists k | k in pending :: LookupOf(fetch)(k).Fault?
    ensures r.LookupThrew? ==>
      && r.failedId in Pending(AppIds(r.files), CachedTitles(dump).Keys)
      && LookupOf(fetch)(r.failedId).Fault?
      && written == None
    ensures r.Finished? ==>
      && r.titles == CachedTitles(dump) + Learned(Pending(AppIds(r.files), CachedTitles(dump).Keys), LookupOf(fetch))
      && (forall k | k in order :: k in r.titles)
      && (forall k | k in r.titles :: k in order)
      && (forall i, j | 0 <= i < j < |order| :: order[i] != order[j])
      && written == Some(Render(order, r.titles, nl))
      && r.moves == PlannedMoves(pngDir, full, r.files, r.titles)
      && r.unknown == UnknownNames(r.files, r.titles)
      && r.numMoved == |r.moves|
  {
    order := [];
    var files := Collect(entries, Accept);
    var cached := ReadAppTitleDump(dump, map[]);
    var titles, queried, faulted := ResolveTitles(AppIds(files), cached, LookupOf(fetch));
    if faulted {
      r := LookupThrew(files, queried[|queried| - 1]);
      written := None;
      return;
    }
    var text;
    text, order := WriteAppTitleDump(titles, nl);
    var moves, unknown, numMoved := Categorize(pngDir, full, files, titles);
    r := Finished(files, titles, moves, unknown, numMoved);
    written := Some(text);
  }

  /**
   * `Main`: `input` is what `Console.ReadLine` returned and `walk` the files of the folder tree,
   * `None` when the folder does not exist and `CollectPngFiles` throws.
   */
  method RunMain(input: Option<string>, walk: Option<seq<DirEntry>>, dump: Option<string>,
                 fetch: Int32 -> Option<string>, full: string -> string, nl: string)
    returns (r: Outcome, written: Option<string>, order: seq<Int32>)
    ensures input.None? ==> r == NoInput && written == None
    ensures input.Some? && walk.None? ==> r == MissingDirectory && written == None
    ensures input.Some? && walk.Some? ==>
      && (r.LookupThrew? || r.Finished?)
      && r.files == Scanned(walk.value)
      && (r.LookupThrew? <==>
            exists k | k in Pending(AppIds(r.files), CachedTitles(dump).Keys) :: LookupOf(fetch)(k).Fault?)
      && (r.LookupThrew? ==> written == None)
      && (r.Finished? ==>
            && r.titles == CachedTitles(dump) + Learned(Pending(AppIds(r.files), CachedTitles(dump).Keys), LookupOf(fetch))
            && (forall k | k in order :: k in r.titles)
            && (forall k | k in r.titles :: k in order)
            && written == Some(Render(order, r.titles, nl))
            && r.moves == PlannedMoves(input.value, full, r.files, r.titles)
            && r.unknown == UnknownNames(r.files, r.titles))
  {
    order := [];
    if input.None? {
      return NoInput, None, order;
    }
    if walk.None? {
      return MissingDirectory, None, order;
    }
    r, written, order := Process(input.value, walk.value, dump, fetch, full, nl);
  }
}
