/**
 * Where the C++ program and its C# port agree, and where they part: the same screenshot is
 * accepted with the same app id as long as the id fits in an `int`, and the same store page
 * yields the same title as long as the markers come in order and the page holds no NUL.
 */
module Versions {
  import opened Wrappers
  import opened Text
  import opened Title
  import opened Records
  import opened Resolve
  import MainCc
  import ProgramCs

  /** Digits without a sign parse to their value when it fits in an `int`, and fail otherwise. */
  lemma ParseDigits(s: string)
    requires |s| > 0 && AllDigits(s)
    ensures DigitsValue(s) <= ProgramCs.Int32Max ==> ProgramCs.ParseInt(s) == Some(DigitsValue(s))
    ensures DigitsValue(s) > ProgramCs.Int32Max ==> ProgramCs.ParseInt(s).None?
  {
    assert IsDigit(s[0]);
  }

  /** The id of a file the C++ scan accepts is the text before the first `_` of its name. */
  lemma CppIdIsFirstPiece(e: DirEntry)
    requires MainCc.Accept(e).Some?
    ensures var id := MainCc.Accept(e).value.appId;
            |id| > 0 && AllDigits(id) && EndsWith(e.name, ".png") &&
            IndexOfChar(e.name, '_') == Some(|id|) && ProgramCs.Split(e.name, '_')[0] == id
  {
    var id := MainCc.Accept(e).value.appId;
    MainCc.AcceptSound(e);
    assert e.name[..|id|] == id && e.name[|id|] == '_' by {
      assert e.name[..|id| + 1] == id + "_";
    }
    assert '_' !in id by {
      forall i | 0 <= i < |id| ensures id[i] != '_' {
        assert IsDigit(id[i]);
      }
    }
    IndexOfCharAt(e.name, '_', |id|);
    ProgramCs.SplitFirst(e.name, '_', |id|);
  }

  /**
   * A file the C++ scan accepts is accepted by the C# scan too, with the id read as a number,
   * provided that number fits in an `int`.
   */
  lemma ScansAgree(e: DirEntry)
    requires MainCc.Accept(e).Some?
    requires DigitsValue(MainCc.Accept(e).value.appId) <= ProgramCs.Int32Max
    ensures ProgramCs.Accept(e).Some?
    ensures ProgramCs.Accept(e).value == PngFile(DigitsValue(MainCc.Accept(e).value.appId), e.path, e.name)
  {
    var id := MainCc.Accept(e).value.appId;
    CppIdIsFirstPiece(e);
    ParseDigits(id);
    ProgramCs.AcceptComplete(e, |id|, DigitsValue(id));
  }

  /** An id too large for an `int` makes the C# scan refuse a file the C++ scan keeps. */
  lemma WideIdRefused(e: DirEntry)
    requires MainCc.Accept(e).Some?
    requires DigitsValue(MainCc.Accept(e).value.appId) > ProgramCs.Int32Max
    ensures ProgramCs.Accept(e).None?
  {
    var id := MainCc.Accept(e).value.appId;
    CppIdIsFirstPiece(e);
    ParseDigits(id);
    ProgramCs.PngExtension(e.name);
    ProgramCs.SplitPieces(e.name, '_');
  }

  /** Text without a NUL passes `.c_str()` unchanged. */
  lemma CStrOfText(s: string)
    requires '\0' !in s
    ensures MainCc.CStr(s) == s
  {
  }

  /** A slice of text without a NUL passes `.c_str()` unchanged. */
  lemma CStrOfSlice(s: string, a: nat, b: nat)
    requires a <= b <= |s| && '\0' !in s
    ensures MainCc.CStr(s[a..b]) == s[a..b]
  {
    var t := s[a..b];
    assert forall i | 0 <= i < |t| :: t[i] == s[a + i];
    CStrOfText(t);
  }

  /** The C++ title of such a page, with the NUL cut shown to change nothing. */
  lemma CppTitle(page: string, x1: nat, x2: nat)
    requires Find(page, TitleOpen) == Some(x1) && Find(page, TitleClose) == Some(x2)
    requires x1 <= x2 && |page| <= MainCc.Npos && '\0' !in page
    ensures x1 + 7 <= x2
    ensures MainCc.GetTitleFromId(Some(page)) == Some(Normalize(page[x1 + 7..x2]))
  {
    MainCc.TitleBetweenMarkers(page, x1, x2);
    CStrOfSlice(page, x1 + 7, x2);
  }

  /**
   * A page with both markers, `<title>` first and no NUL gives both programs the same title: the
   * normalised text between the markers.
   */
  lemma TitlesAgree(page: string, x1: nat, x2: nat)
    requires Find(page, TitleOpen) == Some(x1) && Find(page, TitleClose) == Some(x2)
    requires x1 <= x2 && |page| <= MainCc.Npos && '\0' !in page
    ensures x1 + 7 <= x2
    ensures MainCc.GetTitleFromId(Some(page)) == Some(Normalize(page[x1 + 7..x2]))
    ensures ProgramCs.GetAppTitleFromId(Some(page)) == Found(Normalize(page[x1 + 7..x2]))
  {
    CppTitle(page, x1, x2);
    ProgramCs.TitleFound(page, x1, x2);
  }

  /**
   * With the closing marker first, the C++ program takes everything after `<title>` as the
   * title while the C# program throws and ends the run.
   */
  lemma LateOpenDiffers(page: string, x1: nat, x2: nat)
    requires Find(page, TitleOpen) == Some(x1) && Find(page, TitleClose) == Some(x2)
    requires x2 < x1 && |page| <= MainCc.Npos
    ensures MainCc.GetTitleFromId(Some(page)) == Some(Normalize(MainCc.CStr(page[x1 + 7..])))
    ensures ProgramCs.GetAppTitleFromId(Some(page)) == Fault
  {
    MainCc.TitleAfterLateOpen(page, x1, x2);
    ProgramCs.TitleFound(page, x1, x2);
    ProgramCs.TitleFault(page);
  }
}
