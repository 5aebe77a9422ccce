/** Link slugs: what Slugify produces and which suffix a taken slug gets. */
module Slug {
  import opened Wrappers
  import opened Text
  import opened Decimal

  const MAX_SLUG := 60

  predicate IsSlugChar(c: char) { 'a' <= c <= 'z' || '0' <= c <= '9' }

  predicate IsDash(c: char) { c == '-' }

  predicate NotSlugChar(c: char) { !IsSlugChar(c) }

  /** Every run of other characters becomes one dash. */
  function Dashed(s: string): string
    decreases |s|
  {
    if s == "" then ""
    else if IsSlugChar(s[0]) then [s[0]] + Dashed(s[1..])
    else "-" + Dashed(DropLeft(s[1..], NotSlugChar))
  }

  function TrimDashes(s: string): string { DropLeft(DropRight(s, IsDash), IsDash) }

  function Slugify(title: string): string {
    var s := TrimDashes(Dashed(ToLower(TrimSpace(title))));
    if |s| > MAX_SLUG then TrimDashes(s[..MAX_SLUG]) else s
  }

  /** Letters, digits and single inner dashes. */
  predicate SlugShape(s: string) {
    && (forall i :: 0 <= i < |s| ==> IsSlugChar(s[i]) || s[i] == '-')
    && (forall i :: 0 < i < |s| ==> s[i] != '-' || s[i - 1] != '-')
    && (s != "" ==> s[0] != '-' && s[|s| - 1] != '-')
  }

  predicate SingleDashes(s: string) {
    && (forall i :: 0 <= i < |s| ==> IsSlugChar(s[i]) || s[i] == '-')
    && (forall i :: 0 < i < |s| ==> s[i] != '-' || s[i - 1] != '-')
  }

  lemma {:induction false} DashedShape(s: string)
    ensures SingleDashes(Dashed(s))
    ensures s != "" && IsSlugChar(s[0]) ==> Dashed(s) != "" && Dashed(s)[0] == s[0]
    ensures s == "" ==> Dashed(s) == ""
    decreases |s|
  {
    hide DropLeft;
    if s != "" {
      DashedShape(if IsSlugChar(s[0]) then s[1..] else DropLeft(s[1..], NotSlugChar));
    }
  }

  lemma TrimDashesShape(s: string)
    requires SingleDashes(s)
    ensures SlugShape(TrimDashes(s)) && |TrimDashes(s)| <= |s|
  {
    hide DropLeft, DropRight;
    var a := DropRight(s, IsDash);
    var r := DropLeft(a, IsDash);
    assert forall i :: 0 <= i < |r| ==> r[i] == s[|a| - |r| + i];
  }

  /** Every slug is over [a-z0-9-], has no edge or doubled dash, and at most 60 characters. */
  lemma SlugifyShape(title: string)
    ensures SlugShape(Slugify(title)) && |Slugify(title)| <= MAX_SLUG
  {
    hide Dashed, TrimDashes, SlugShape, SingleDashes, ToLower, TrimSpace;
    var d := Dashed(ToLower(TrimSpace(title)));
    DashedShape(ToLower(TrimSpace(title)));
    TrimDashesShape(d);
    var s := TrimDashes(d);
    if |s| > MAX_SLUG {
      CutKeepsDashes(s);
      TrimDashesShape(s[..MAX_SLUG]);
    }
  }

  lemma CutKeepsDashes(s: string)
    requires SlugShape(s) && |s| > MAX_SLUG
    ensures SingleDashes(s[..MAX_SLUG])
  {
  }

  lemma {:induction false} DashedFixed(s: string)
    requires SingleDashes(s) && (s != "" ==> s[|s| - 1] != '-')
    ensures Dashed(s) == s
    decreases |s|
  {
    hide IsSlugChar, DropLeft;
    if s != "" {
      assert forall i :: 0 < i < |s| ==> s[1..][i - 1] == s[i];
      DashedFixed(s[1..]);
      if s[0] == '-' {
        assert IsSlugChar(s[1]);
        assert DropLeft(s[1..], NotSlugChar) == s[1..];
      }
    }
  }

  lemma LowerAndTrimFixed(s: string)
    requires SlugShape(s)
    ensures ToLower(s) == s && TrimSpace(s) == s
  {
    assert Trimmed(s);
    forall i | 0 <= i < |s| ensures LowerChar(s[i]) == s[i] { assert IsSlugChar(s[i]) || s[i] == '-'; }
  }

  lemma TrimDashesFixed(s: string)
    requires SlugShape(s)
    ensures TrimDashes(s) == s
  {
  }

  /** Slugify leaves a string alone exactly when it already has a slug's shape and length. */
  lemma SlugifyFixedExactly(s: string)
    ensures Slugify(s) == s <==> SlugShape(s) && |s| <= MAX_SLUG
  {
    hide Dashed, TrimDashes, SlugShape, TrimSpace, ToLower;
    SlugifyShape(s);
    if SlugShape(s) && |s| <= MAX_SLUG {
      LowerAndTrimFixed(s);
      SlugIsSingleDashes(s);
      DashedFixed(s);
      TrimDashesFixed(s);
    }
  }

  lemma SlugIsSingleDashes(s: string)
    requires SlugShape(s)
    ensures SingleDashes(s) && (s != "" ==> s[|s| - 1] != '-')
  {
  }

  lemma SlugifyIdempotent(title: string)
    ensures Slugify(Slugify(title)) == Slugify(title)
  {
    hide Slugify, SlugShape;
    SlugifyShape(title);
    SlugifyFixedExactly(Slugify(title));
  }

  // ----- suffixes -----

  const SUFFIX_LIMIT: nat := 1000

  /** base, base-2, base-3, ... */
  function Suffixed(base: string, n: nat): string {
    if n <= 1 then base else base + "-" + FormatInt(n)
  }

  /** The first candidate from the n-th on that no event uses. */
  function FirstFree(taken: set<string>, base: string, n: nat): (r: Option<string>)
    ensures r.Some? ==> r.value !in taken
                        && exists k: nat :: n <= k < SUFFIX_LIMIT && r == Some(Suffixed(base, k))
                             && forall m: nat :: n <= m < k ==> Suffixed(base, m) in taken
    ensures r.None? ==> forall m: nat :: n <= m < SUFFIX_LIMIT ==> Suffixed(base, m) in taken
    decreases SUFFIX_LIMIT - n
  {
    if n >= SUFFIX_LIMIT then None
    else if Suffixed(base, n) !in taken then Some(Suffixed(base, n))
    else
      var r := FirstFree(taken, base, n + 1);
      assert r.Some? ==> exists k: nat :: n <= k < SUFFIX_LIMIT && r == Some(Suffixed(base, k))
                             && forall m: nat :: n <= m < k ==> Suffixed(base, m) in taken by {
        if r.Some? {
          var k: nat :| n + 1 <= k < SUFFIX_LIMIT && r == Some(Suffixed(base, k))
                        && forall m: nat :: n + 1 <= m < k ==> Suffixed(base, m) in taken;
        }
      }
      r
  }

  method UniqueSlug(taken: set<string>, base: string) returns (r: Result<string>)
    ensures r == (var free := FirstFree(taken, base, 1); if free.Some? then Ok(free.value) else Err(Conflict))
  {
    var n: nat := 1;
    while n < SUFFIX_LIMIT
      invariant 1 <= n <= SUFFIX_LIMIT
      invariant FirstFree(taken, base, 1) == FirstFree(taken, base, n)
    {
      var candidate := base;
      if n > 1 {
        candidate := base + "-" + FormatInt(n);
      }
      if candidate !in taken {
        return Ok(candidate);
      }
      n := n + 1;
    }
    return Err(Conflict);
  }

  lemma SuffixedInjective(base: string, m: nat, n: nat)
    requires 1 <= m < n
    ensures Suffixed(base, m) != Suffixed(base, n)
  {
    if m > 1 && Suffixed(base, m) == Suffixed(base, n) {
      assert Suffixed(base, m)[|base| + 1..] == FormatInt(m);
      assert Suffixed(base, n)[|base| + 1..] == FormatInt(n);
      FormatIntInjective(m, n);
    }
  }

  lemma {:induction false} TakenCount(taken: set<string>, base: string, n: nat)
    requires 1 <= n && forall m: nat :: 1 <= m < n ==> Suffixed(base, m) in taken
    ensures |taken| >= n - 1
    decreases n
  {
    if n > 1 {
      var s := Suffixed(base, n - 1);
      forall m: nat | 1 <= m < n - 1 ensures Suffixed(base, m) in taken - {s} { SuffixedInjective(base, m, n - 1); }
      TakenCount(taken - {s}, base, n - 1);
      assert taken == (taken - {s}) + {s};
    }
  }

  /** A suffix search can fail only once 999 slugs are in use. */
  lemma FreeSlugExists(taken: set<string>, base: string)
    requires |taken| < 999
    ensures FirstFree(taken, base, 1).Some?
  {
    hide Suffixed;
    if FirstFree(taken, base, 1).None? { TakenCount(taken, base, SUFFIX_LIMIT); }
  }

  lemma SuffixedShape(base: string, n: nat)
    requires SlugShape(base) && base != ""
    ensures SlugShape(Suffixed(base, n)) && Suffixed(base, n) != ""
  {
    var s := Suffixed(base, n);
    var d := FormatInt(n);
    assert forall i :: 0 <= i < |d| ==> IsDigit(d[i]) by { assert IsDigit(Digits(n)[0]); }
    if n > 1 {
      assert forall i :: 0 <= i < |base| ==> s[i] == base[i];
      assert forall i :: |base| < i < |s| ==> s[i] == d[i - |base| - 1];
    }
  }

  /** A free slug made from a slug is one too. */
  lemma FirstFreeShape(taken: set<string>, base: string)
    requires SlugShape(base) && base != ""
    ensures var r := FirstFree(taken, base, 1); r.Some? ==> SlugShape(r.value) && r.value != ""
  {
    hide SlugShape, Suffixed, FirstFree;
    var r := FirstFree(taken, base, 1);
    if r.Some? {
      var k: nat :| 1 <= k < SUFFIX_LIMIT && r == Some(Suffixed(base, k));
      SuffixedShape(base, k);
    }
  }
}
