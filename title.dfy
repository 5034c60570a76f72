/**
 * The two fixed rewrites applied to every scraped store-page title, identical in both programs:
 * the anchored discount pattern `^Save [0-9]+% on ` and the character class `[\/:*?"<>|]`.
 */
module Title {
  import opened Text

  /** The characters the invalid-character class matches; the backslash is not among them. */
  const Invalid: set<char> := {'/', ':', '*', '?', '"', '<', '>', '|'}

  /** `p` is exactly one match of `Save [0-9]+% on `. */
  predicate IsDiscountPrefix(p: string)
  {
    |p| > 10 && StartsWith(p, "Save ") && EndsWith(p, "% on ") && AllDigits(p[5..|p| - 5])
  }

  /**
   * Replaces the match of `^Save [0-9]+% on ` by nothing. The pattern is anchored, so at most one
   * prefix is removed; `[0-9]+` is greedy, and since `%` is not a digit its run is the maximal one.
   */
  function StripDiscount(t: string): (r: string)
    ensures r == t || (|r| < |t| && IsDiscountPrefix(t[..|t| - |r|]) && t[|t| - |r|..] == r)
  {
    if StartsWith(t, "Save ") then
      var rest := t[5..];
      var n := DigitRun(rest);
      if n > 0 && StartsWith(rest[n..], "% on ") then
        var r := rest[n + 5..];
        assert t[..|t| - |r|] == "Save " + rest[..n] + "% on ";
        assert t[..|t| - |r|][5..|t| - |r| - 5] == rest[..n];
        r
      else t
    else t
  }

  /** Whenever a title does start with a discount prefix, exactly that prefix is removed. */
  lemma StripDiscountRemovesPrefix(p: string, x: string)
    requires IsDiscountPrefix(p)
    ensures StripDiscount(p + x) == x
  {
    var t := p + x;
    var digits := p[5..|p| - 5];
    assert t[..5] == "Save ";
    var rest := t[5..];
    assert rest == digits + ("% on " + x);
    var n := DigitRun(rest);
    DigitRunOfDigits(digits, "% on " + x);
    assert n == |digits|;
    assert rest[n..] == "% on " + x;
    assert rest[n + 5..] == x;
  }

  lemma DigitRunOfDigits(d: string, y: string)
    requires AllDigits(d)
    requires y != [] && !IsDigit(y[0])
    ensures DigitRun(d + y) == |d|
  {
    var n := DigitRun(d + y);
    assert forall i | 0 <= i < |d| :: (d + y)[i] == d[i];
    assert (d + y)[|d|] == y[0];
  }

  /** The discount rewrite changes a title exactly when the title starts with a discount prefix. */
  lemma StripDiscountChangesIff(t: string)
    ensures StripDiscount(t) != t <==> exists k :: 0 < k <= |t| && IsDiscountPrefix(t[..k])
  {
    if exists k :: 0 < k <= |t| && IsDiscountPrefix(t[..k]) {
      var k :| 0 < k <= |t| && IsDiscountPrefix(t[..k]);
      assert t == t[..k] + t[k..];
      StripDiscountRemovesPrefix(t[..k], t[k..]);
    } else {
    }
  }

  /** Deletes every character of the class `[\/:*?"<>|]`, keeping all others in order. */
  function RemoveInvalid(t: string): (r: string)
    ensures |r| <= |t|
    ensures forall i | 0 <= i < |r| :: r[i] !in Invalid
    ensures (forall i | 0 <= i < |t| :: t[i] !in Invalid) ==> r == t
  {
    if t == [] then []
    else (if t[0] in Invalid then [] else [t[0]]) + RemoveInvalid(t[1..])
  }

  /** Removal distributes over concatenation: what survives keeps its relative order. */
  lemma {:induction false} RemoveInvalidAppend(a: string, b: string)
    ensures RemoveInvalid(a + b) == RemoveInvalid(a) + RemoveInvalid(b)
  {
    if a == [] {
      assert a + b == b;
    } else {
      assert (a + b)[1..] == a[1..] + b;
      RemoveInvalidAppend(a[1..], b);
    }
  }

  /** Every valid character, the backslash included, survives as often as it occurred. */
  lemma {:induction false} RemoveInvalidKeepsValid(t: string, c: char)
    ensures multiset(RemoveInvalid(t))[c] == if c in Invalid then 0 else multiset(t)[c]
  {
    if t != [] {
      assert t == [t[0]] + t[1..];
      RemoveInvalidKeepsValid(t[1..], c);
    }
  }

  /** Applying the removal twice gives the same as applying it once. */
  lemma RemoveInvalidIdempotent(t: string)
    ensures RemoveInvalid(RemoveInvalid(t)) == RemoveInvalid(t)
  {
  }

  /** The normalisation applied to every title found on a store page. */
  function Normalize(t: string): (r: string)
    ensures forall i | 0 <= i < |r| :: r[i] !in Invalid
  {
    RemoveInvalid(StripDiscount(t))
  }

  /** The worked example: the discount prefix and the colon disappear. */
  lemma NormalizeExample()
    ensures Normalize("Save 50% on XCOM: ENEMY UNKNOWN") == "XCOM ENEMY UNKNOWN"
  {
    StripExample();
    RemoveExample();
  }

  lemma StripExample()
    ensures StripDiscount("Save 50% on XCOM: ENEMY UNKNOWN") == "XCOM: ENEMY UNKNOWN"
  {
    var p, x := "Save 50% on ", "XCOM: ENEMY UNKNOWN";
    assert p[5..|p| - 5] == "50";
    assert IsDiscountPrefix(p);
    assert p + x == "Save 50% on XCOM: ENEMY UNKNOWN";
    StripDiscountRemovesPrefix(p, x);
  }

  lemma RemoveExample()
    ensures RemoveInvalid("XCOM: ENEMY UNKNOWN") == "XCOM ENEMY UNKNOWN"
  {
    var a, b, c := "XCOM", ":", " ENEMY UNKNOWN";
    assert a + b + c == "XCOM: ENEMY UNKNOWN";
    assert a + c == "XCOM ENEMY UNKNOWN";
    assert RemoveInvalid(a + b + c) == a + c by {
      CleanLiterals();
      RemoveInvalidBetween(a, b, c);
    }
  }

  lemma CleanLiterals()
    ensures forall i | 0 <= i < |"XCOM"| :: "XCOM"[i] !in Invalid
    ensures forall i | 0 <= i < |":"| :: ":"[i] in Invalid
    ensures forall i | 0 <= i < |" ENEMY UNKNOWN"| :: " ENEMY UNKNOWN"[i] !in Invalid
  {
  }

  /** A run of invalid characters between two valid stretches is dropped, the stretches are joined. */
  lemma RemoveInvalidBetween(a: string, b: string, c: string)
    requires forall i | 0 <= i < |a| :: a[i] !in Invalid
    requires forall i | 0 <= i < |b| :: b[i] in Invalid
    requires forall i | 0 <= i < |c| :: c[i] !in Invalid
    ensures RemoveInvalid(a + b + c) == a + c
  {
    var ab := a + b;
    RemoveInvalidAppend(ab, c);
    RemoveInvalidAppend(a, b);
    RemoveInvalidOfInvalid(b);
    assert RemoveInvalid(a) == a;
    assert RemoveInvalid(c) == c;
    assert RemoveInvalid(ab) == a;
  }

  lemma {:induction false} RemoveInvalidOfInvalid(b: string)
    requires forall i | 0 <= i < |b| :: b[i] in Invalid
    ensures RemoveInvalid(b) == []
  {
    if b != [] {
      RemoveInvalidOfInvalid(b[1..]);
    }
  }

  /** Only one prefix is removed: a second discount prefix behind the first one stays. */
  lemma StripDiscountOnlyOnce(p: string, q: string, x: string)
    requires IsDiscountPrefix(p) && IsDiscountPrefix(q)
    ensures StripDiscount(p + q + x) == q + x
  {
    assert p + q + x == p + (q + x);
    StripDiscountRemovesPrefix(p, q + x);
  }

  // The markers around the title in a store page

  /** Opens the title of a store page. */
  const TitleOpen := "<title>"

  /** Follows the game's name in the title of its store page. */
  const TitleClose := " on Steam</title>"

  /** In a page the two markers cannot overlap: the closing one starts with a space. */
  lemma {:induction false} MarkersApart(out: string, x1: nat, x2: nat)
    requires OccursAt(out, TitleOpen, x1) && OccursAt(out, TitleClose, x2)
    ensures x2 < x1 || x1 + 7 <= x2
  {
    assert out[x2] == ' ' by {
      assert out[x2..x2 + |TitleClose|][0] == ' ';
    }
  }
}
