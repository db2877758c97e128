/** Branch name validation, slug generation and slug disambiguation. */
module Naming {
  import opened Paths

  // ── Validation ──

  predicate AllowedChar(c: char) {
    'a' <= c <= 'z' || 'A' <= c <= 'Z' || '0' <= c <= '9' || c == '_' || c == '/' || c == '.' || c == '-'
  }

  /** The parts of s between slashes. */
  function Segments(s: string): (r: seq<string>)
    ensures |r| > 0
  {
    if s == [] then [""]
    else
      var rest := Segments(s[1..]);
      if s[0] == '/' then [""] + rest else [[s[0]] + rest[0]] + rest[1..]
  }

  predicate HasDotDot(s: string) {
    ".." in Segments(s)
  }

  /** 1 to 128 allowed characters, no leading slash, no ".." segment. */
  predicate Validate(name: string) {
    && 1 <= |name| <= 128
    && (forall i :: 0 <= i < |name| ==> AllowedChar(name[i]))
    && name[0] != '/'
    && !HasDotDot(name)
  }

  function AsciiLower(s: string): (r: string)
    ensures |r| == |s|
    ensures forall i :: 0 <= i < |s| ==> r[i] == if 'A' <= s[i] <= 'Z' then (s[i] as int + 32) as char else s[i]
  {
    seq(|s|, i requires 0 <= i < |s| => if 'A' <= s[i] <= 'Z' then (s[i] as int + 32) as char else s[i])
  }

  predicate IsReserved(name: string) {
    AsciiLower(name) in {"trunk", "main", "master", "head"}
  }

  // ── The character scan ──

  predicate SlugChar(c: char) {
    'a' <= c <= 'z' || '0' <= c <= '9' || c == '_' || c == '/' || c == '.'
  }

  datatype Scan = Scan(slug: string, lastWasDash: bool)

  predicate EndsWith(s: string, c: char) {
    s != [] && s[|s| - 1] == c
  }

  /** One character of the lower-cased name; a full slug takes no more. */
  function Step(st: Scan, c: char, isSpace: char -> bool): Scan {
    if |st.slug| >= 128 then st
    else if SlugChar(c) then
      if c == '/' && EndsWith(st.slug, '/') then st else Scan(st.slug + [c], false)
    else if c == '-' then
      if st.slug == [] || st.lastWasDash then st else Scan(st.slug + ['-'], true)
    else if isSpace(c) then
      if st.slug != [] && !st.lastWasDash then Scan(st.slug + ['-'], true) else st
    else st
  }

  function ScanAll(input: string, isSpace: char -> bool): Scan {
    if input == [] then Scan("", false)
    else Step(ScanAll(input[..|input| - 1], isSpace), input[|input| - 1], isSpace)
  }

  predicate EdgeChar(c: char) {
    c == '-' || c == '_' || c == '/'
  }

  function TrimStart(s: string): string {
    if s != [] && EdgeChar(s[0]) then TrimStart(s[1..]) else s
  }

  function TrimEnd(s: string): string {
    if s != [] && EdgeChar(s[|s| - 1]) then TrimEnd(s[..|s| - 1]) else s
  }

  function Trim(s: string): string {
    TrimEnd(TrimStart(s))
  }

  function Dashed(s: string): (r: string)
    ensures |r| == |s| && forall i :: 0 <= i < |s| ==> r[i] == if s[i] == '/' then '-' else s[i]
  {
    seq(|s|, i requires 0 <= i < |s| => if s[i] == '/' then '-' else s[i])
  }

  const FALLBACK := "branch"
  const SUFFIX := "-branch"

  /** From the trimmed scan output to the slug. */
  function Finish(trimmed: string): string {
    var named := if trimmed == [] then FALLBACK else trimmed;
    var free := if IsReserved(named) then named + SUFFIX else named;
    var short := if |free| > 128 then Trim(free[..128]) else free;
    var safe := if Validate(short) then short else Trim(Dashed(short));
    if Validate(safe) then safe else FALLBACK
  }

  /** The slug of an already lower-cased character stream. */
  function SlugOf(input: string, isSpace: char -> bool): string {
    Finish(Trim(ScanAll(input, isSpace).slug))
  }

  function Lowered(name: string, lower: char -> string): string {
    if name == [] then [] else Lowered(name[..|name| - 1], lower) + lower(name[|name| - 1])
  }

  /** Slug generation; the Unicode lower-casing and white-space tables are parameters. */
  method Slugify(name: string, lower: char -> string, isSpace: char -> bool) returns (r: string)
    ensures r == SlugOf(Lowered(name, lower), isSpace)
    ensures Validate(r) && !IsReserved(r)
  {
    var input := Lowered(name, lower);
    var slug := "";
    var lastWasDash := false;
    var i := 0;
    while i < |input|
      invariant i <= |input|
      invariant ScanAll(input[..i], isSpace) == Scan(slug, lastWasDash)
    {
      assert input[..i + 1][..i] == input[..i];
      var c := input[i];
      if |slug| >= 128 {
        SaturatedScan(input, i, isSpace);
        break;
      }
      if SlugChar(c) {
        if !(c == '/' && EndsWith(slug, '/')) {
          slug := slug + [c];
          lastWasDash := false;
        }
      } else if c == '-' {
        if slug != [] && !lastWasDash {
          slug := slug + ['-'];
          lastWasDash := true;
        }
      } else if isSpace(c) {
        if slug != [] && !lastWasDash {
          slug := slug + ['-'];
          lastWasDash := true;
        }
      }
      i := i + 1;
    }
    if i == |input| { assert input[..i] == input; }
    r := Finish(Trim(slug));
    SlugIsValid(input, isSpace);
  }

  lemma {:induction false} SaturatedScan(input: string, i: nat, isSpace: char -> bool)
    requires i <= |input| && |ScanAll(input[..i], isSpace).slug| >= 128
    ensures ScanAll(input, isSpace) == ScanAll(input[..i], isSpace)
    decreases |input| - i
  {
    if i == |input| {
      assert input[..i] == input;
    } else {
      assert input[..i + 1][..i] == input[..i];
      SaturatedScan(input, i + 1, isSpace);
    }
  }

  // ── What the scan produces ──

  /** Slug characters and single dashes only, at most 128, no leading dash, no "//". */
  ghost predicate Clean(s: string) {
    && |s| <= 128
    && (forall i :: 0 <= i < |s| ==> SlugChar(s[i]) || s[i] == '-')
    && (s != [] ==> s[0] != '-')
    && (forall i, j :: 0 <= i && j == i + 1 && j < |s| ==>
        !(s[i] == '-' && s[j] == '-') && !(s[i] == '/' && s[j] == '/'))
  }

  lemma CleanPush(s: string, c: char)
    requires Clean(s) && |s| < 128 && (SlugChar(c) || c == '-')
    requires c == '-' ==> s != [] && s[|s| - 1] != '-'
    requires c == '/' ==> !EndsWith(s, '/')
    ensures Clean(s + [c])
  {
    var t := s + [c];
    forall i, j | 0 <= i && j == i + 1 && j < |t|
      ensures !(t[i] == '-' && t[j] == '-') && !(t[i] == '/' && t[j] == '/')
    {
      if j < |s| { assert t[i] == s[i] && t[j] == s[j]; }
    }
  }

  lemma {:induction false} ScanIsClean(input: string, isSpace: char -> bool)
    ensures Clean(ScanAll(input, isSpace).slug)
    ensures ScanAll(input, isSpace).lastWasDash <==> EndsWith(ScanAll(input, isSpace).slug, '-')
    ensures '/' !in input ==> '/' !in ScanAll(input, isSpace).slug
  {
    if input != [] {
      ScanIsClean(input[..|input| - 1], isSpace);
      var st, c := ScanAll(input[..|input| - 1], isSpace), input[|input| - 1];
      assert c in input && forall x :: x in input[..|input| - 1] ==> x in input;
      if Step(st, c, isSpace) != st {
        CleanPush(st.slug, if SlugChar(c) then c else '-');
      }
    }
  }

  /** A clean string goes through the scan unchanged. */
  lemma {:induction false} CleanIsFixed(s: string, isSpace: char -> bool)
    requires Clean(s)
    ensures ScanAll(s, isSpace) == Scan(s, EndsWith(s, '-'))
  {
    if s != [] {
      var front, c := s[..|s| - 1], s[|s| - 1];
      assert s == front + [c];
      assert Clean(front) by { CleanSlice(s, 0, |s| - 1); assert s[0..|s| - 1] == front; }
      CleanIsFixed(front, isSpace);
      if front != [] {
        assert s[|s| - 2] == front[|front| - 1];
      }
    }
  }

  lemma CleanSlice(s: string, i: nat, j: nat)
    requires Clean(s) && i <= j <= |s| && (i < j ==> s[i] != '-')
    ensures Clean(s[i..j])
  {
    var t := s[i..j];
    forall a, b | 0 <= a && b == a + 1 && b < |t|
      ensures !(t[a] == '-' && t[b] == '-') && !(t[a] == '/' && t[b] == '/')
    {
      assert t[a] == s[i + a] && t[b] == s[i + b];
    }
  }

  // ── Trimming ──

  ghost predicate Trimmed(s: string) {
    s == [] || (!EdgeChar(s[0]) && !EdgeChar(s[|s| - 1]))
  }

  lemma {:induction false} TrimStartSpec(s: string) returns (i: nat)
    ensures i <= |s| && TrimStart(s) == s[i..] && (i < |s| ==> !EdgeChar(s[i]))
    ensures forall j :: 0 <= j < i ==> EdgeChar(s[j])
  {
    if s != [] && EdgeChar(s[0]) {
      var k := TrimStartSpec(s[1..]);
      i := k + 1;
      assert s[1..][k..] == s[i..];
      forall j | 0 <= j < i ensures EdgeChar(s[j]) { if j > 0 { assert s[j] == s[1..][j - 1]; } }
    } else {
      i := 0;
    }
  }

  lemma {:induction false} TrimEndSpec(s: string) returns (j: nat)
    ensures j <= |s| && TrimEnd(s) == s[..j] && (j > 0 ==> !EdgeChar(s[j - 1]))
    ensures forall i :: j <= i < |s| ==> EdgeChar(s[i])
  {
    if s != [] && EdgeChar(s[|s| - 1]) {
      j := TrimEndSpec(s[..|s| - 1]);
      assert s[..|s| - 1][..j] == s[..j];
      forall i | j <= i < |s| ensures EdgeChar(s[i]) { if i < |s| - 1 { assert s[i] == s[..|s| - 1][i]; } }
    } else {
      j := |s|;
    }
  }

  lemma SliceOfRest(s: string, i: nat, n: nat)
    requires i + n <= |s|
    ensures s[i..][..n] == s[i..i + n]
  {
  }

  /** The slice between an edge-free start and an edge-free end is trimmed. */
  lemma SliceTrimmed(s: string, i: nat, j: nat)
    requires i <= j <= |s| && (i < j ==> !EdgeChar(s[i]) && !EdgeChar(s[j - 1]))
    ensures Trimmed(s[i..j])
  {
  }

  /** Trimming cuts out a slice that keeps every non-edge character. */
  lemma TrimSpec(s: string) returns (i: nat, j: nat)
    ensures i <= j <= |s| && Trim(s) == s[i..j] && Trimmed(Trim(s))
    ensures forall k :: 0 <= k < |s| && !EdgeChar(s[k]) ==> i <= k < j
  {
    i := TrimStartSpec(s);
    var n := TrimEndSpec(s[i..]);
    j := i + n;
    SliceOfRest(s, i, n);
    SliceTrimmed(s, i, j);
    forall k | 0 <= k < |s| && !EdgeChar(s[k]) ensures i <= k < j {
      if k >= i {
        assert s[i..][k - i] == s[k];
      }
    }
  }

  lemma TrimmedIsFixed(s: string)
    requires Trimmed(s)
    ensures Trim(s) == s
  {
  }

  // ── Segments ──

  lemma {:induction false} NoSlashOneSegment(s: string)
    requires '/' !in s
    ensures Segments(s) == [s]
  {
    if s != [] {
      assert s[0] in s;
      assert forall x :: x in s[1..] ==> x in s;
      NoSlashOneSegment(s[1..]);
      assert [s[0]] + s[1..] == s;
    }
  }

  lemma {:induction false} SegmentChars(s: string, k: nat, i: nat)
    requires k < |Segments(s)| && i < |Segments(s)[k]|
    ensures Segments(s)[k][i] in s
  {
    if s != [] {
      var rest := Segments(s[1..]);
      assert forall x :: x in s[1..] ==> x in s;
      if s[0] == '/' {
        if k > 0 { SegmentChars(s[1..], k - 1, i); }
      } else if k == 0 {
        if i > 0 { SegmentChars(s[1..], 0, i - 1); }
      } else {
        SegmentChars(s[1..], k, i);
      }
    }
  }

  lemma DotDotHasDot(s: string)
    requires HasDotDot(s)
    ensures '.' in s
  {
    var k :| 0 <= k < |Segments(s)| && Segments(s)[k] == "..";
    SegmentChars(s, k, 0);
  }

  // ── Reserved names ──

  lemma ReservedIsShort(s: string)
    ensures IsReserved(s) ==> 4 <= |s| <= 6
    ensures IsReserved(s) ==> '.' !in s && '/' !in s
  {
    if IsReserved(s) {
      var l := AsciiLower(s);
      assert l in {"trunk", "main", "master", "head"};
      forall i | 0 <= i < |s| ensures s[i] != '.' && s[i] != '/' {
        assert 'a' <= l[i] <= 'z';
      }
    }
  }

  // ── Every slug is a valid, unreserved name ──

  lemma CleanAllowed(s: string)
    requires Clean(s)
    ensures forall i :: 0 <= i < |s| ==> AllowedChar(s[i])
  {
  }

  lemma TrimmedScan(input: string, isSpace: char -> bool) returns (t: string)
    ensures t == Trim(ScanAll(input, isSpace).slug) && Clean(t) && Trimmed(t)
    ensures '/' !in input ==> '/' !in t
  {
    ScanIsClean(input, isSpace);
    var s := ScanAll(input, isSpace).slug;
    var i, j := TrimSpec(s);
    t := Trim(s);
    assert i < j ==> t[0] == s[i];
    CleanSlice(s, i, j);
    assert forall x :: x in t ==> x in s;
  }

  /** A dashed string without slash is invalid only when it is "..". */
  lemma NoSlashValid(s: string)
    requires 1 <= |s| <= 128 && '/' !in s && (forall i :: 0 <= i < |s| ==> AllowedChar(s[i]))
    ensures Validate(s) <==> s != ".."
  {
    NoSlashOneSegment(s);
    assert s[0] in s;
  }

  lemma FallbackIsValid()
    ensures Validate(FALLBACK) && !IsReserved(FALLBACK)
  {
    NoSlashOneSegment(FALLBACK);
    var l := AsciiLower(FALLBACK);
    assert l[0] == 'b';
  }

  lemma SuffixedIsValid(t: string)
    requires Clean(t) && IsReserved(t)
    ensures Validate(t + SUFFIX) && !IsReserved(t + SUFFIX)
  {
    ReservedIsShort(t);
    CleanAllowed(t);
    var s := t + SUFFIX;
    assert forall x :: x in s ==> x in t || x in SUFFIX;
    NoSlashValid(s);
    ReservedIsShort(s);
  }

  lemma DashedTrimmed(t: string)
    requires Trimmed(t)
    ensures Trim(Dashed(t)) == Dashed(t)
  {
    assert Trimmed(Dashed(t));
    TrimmedIsFixed(Dashed(t));
  }

  lemma DashedDots(t: string)
    ensures Dashed(t) == ".." <==> t == ".."
  {
    var d := Dashed(t);
    assert |t| == 2 ==> t == [t[0], t[1]] && d == [d[0], d[1]];
  }

  /** What becomes of a short candidate. */
  lemma FinishShort(t: string, free: string)
    requires free == if t == [] then FALLBACK else if IsReserved(t) then t + SUFFIX else t
    requires 1 <= |free| <= 128
    ensures Validate(free) ==> Finish(t) == free
    ensures !Validate(free) ==> Finish(t) == if Validate(Trim(Dashed(free))) then Trim(Dashed(free)) else FALLBACK
  {
    FallbackIsValid();
  }

  /** The three ways a slug comes about. */
  lemma FinishCases(t: string)
    requires Clean(t) && Trimmed(t)
    ensures t == [] ==> Finish(t) == FALLBACK
    ensures IsReserved(t) ==> Finish(t) == t + SUFFIX
    ensures t != [] && !IsReserved(t) && !HasDotDot(t) ==> Finish(t) == t
    ensures t != [] && !IsReserved(t) && HasDotDot(t) ==> Finish(t) == if t == ".." then FALLBACK else Dashed(t)
  {
    if t == [] {
      FallbackIsValid();
      ReservedIsShort(t);
      FinishShort(t, FALLBACK);
    } else if IsReserved(t) {
      ReservedIsShort(t);
      SuffixedIsValid(t);
      FinishShort(t, t + SUFFIX);
    } else {
      FinishShort(t, t);
      if HasDotDot(t) {
        FinishDotDot(t);
      } else {
        CleanAllowed(t);
      }
    }
  }

  lemma FinishDotDot(t: string)
    requires Clean(t) && Trimmed(t) && t != [] && HasDotDot(t)
    ensures !Validate(t) && Trim(Dashed(t)) == Dashed(t)
    ensures Validate(Dashed(t)) <==> t != ".."
  {
    DashedTrimmed(t);
    CleanAllowed(t);
    NoSlashValid(Dashed(t));
    DashedDots(t);
  }

  lemma DashedIsValid(t: string)
    requires Clean(t) && Trimmed(t) && t != [] && HasDotDot(t) && t != ".."
    ensures Validate(Dashed(t)) && !IsReserved(Dashed(t))
  {
    CleanAllowed(t);
    assert '/' !in Dashed(t);
    NoSlashValid(Dashed(t));
    DashedDots(t);
    DashedUnreserved(t);
  }

  /** Whatever the input, the slug passes validation and is not reserved. */
  lemma SlugIsValid(input: string, isSpace: char -> bool)
    ensures Validate(SlugOf(input, isSpace)) && !IsReserved(SlugOf(input, isSpace))
  {
    var t := TrimmedScan(input, isSpace);
    FinishCases(t);
    FallbackIsValid();
    CleanAllowed(t);
    if IsReserved(t) {
      SuffixedIsValid(t);
    } else if t != [] && HasDotDot(t) && t != ".." {
      DashedIsValid(t);
    }
  }

  // ── When a second pass changes the slug ──

  /** A slash next to a dash. */
  ghost predicate SlashNextToDash(s: string) {
    exists i, j :: 0 <= i < j < |s| && j == i + 1 && ((s[i] == '-' && s[j] == '/') || (s[i] == '/' && s[j] == '-'))
  }

  ghost predicate DoubleDash(s: string) {
    exists i, j :: 0 <= i < j < |s| && j == i + 1 && s[i] == '-' && s[j] == '-'
  }

  lemma DashedDoubles(t: string)
    requires Clean(t)
    ensures DoubleDash(Dashed(t)) <==> SlashNextToDash(t)
  {
    var d := Dashed(t);
    if DoubleDash(d) {
      var i, j :| 0 <= i < j < |d| && j == i + 1 && d[i] == '-' && d[j] == '-';
      assert (t[i] == '-' && t[j] == '/') || (t[i] == '/' && t[j] == '-');
    }
    if SlashNextToDash(t) {
      var i, j :| 0 <= i < j < |t| && j == i + 1 && ((t[i] == '-' && t[j] == '/') || (t[i] == '/' && t[j] == '-'));
      assert d[i] == '-' && d[j] == '-';
    }
  }

  lemma DashedClean(t: string)
    requires Clean(t) && Trimmed(t)
    ensures Clean(Dashed(t)) <==> !DoubleDash(Dashed(t))
  {
    var d := Dashed(t);
    if !DoubleDash(d) {
      forall i, j | 0 <= i && j == i + 1 && j < |d|
        ensures !(d[i] == '-' && d[j] == '-') && !(d[i] == '/' && d[j] == '/')
      {
      }
    }
  }

  /** A clean, trimmed, unreserved string without ".." segment is its own slug. */
  lemma CleanSlugFixed(s: string, isSpace: char -> bool)
    requires Clean(s) && Trimmed(s) && s != [] && !IsReserved(s) && !HasDotDot(s)
    ensures SlugOf(s, isSpace) == s
  {
    CleanIsFixed(s, isSpace);
    TrimmedIsFixed(s);
    FinishCases(s);
  }

  lemma FallbackFixed(isSpace: char -> bool)
    ensures SlugOf(FALLBACK, isSpace) == FALLBACK
  {
    FallbackClean();
    CleanSlugFixed(FALLBACK, isSpace);
  }

  lemma FallbackClean()
    ensures Clean(FALLBACK) && Trimmed(FALLBACK) && FALLBACK != [] && !IsReserved(FALLBACK) && !HasDotDot(FALLBACK)
  {
    FallbackIsValid();
    NoSlashOneSegment(FALLBACK);
  }

  lemma SuffixedFixed(t: string, isSpace: char -> bool)
    requires Clean(t) && Trimmed(t) && IsReserved(t)
    ensures SlugOf(t + SUFFIX, isSpace) == t + SUFFIX
  {
    ReservedIsShort(t);
    SuffixedIsValid(t);
    SuffixClean(t);
    CleanSlugFixed(t + SUFFIX, isSpace);
  }

  lemma SuffixClean(t: string)
    requires Clean(t) && Trimmed(t) && 0 < |t| <= 6
    ensures Clean(t + SUFFIX) && Trimmed(t + SUFFIX)
  {
    var s := t + SUFFIX;
    forall i, j | 0 <= i && j == i + 1 && j < |s|
      ensures !(s[i] == '-' && s[j] == '-') && !(s[i] == '/' && s[j] == '/')
    {
      if j < |t| { assert s[i] == t[i] && s[j] == t[j]; }
    }
  }

  lemma CleanNoDouble(t: string)
    requires Clean(t)
    ensures !DoubleDash(t)
  {
  }

  /** A string without slash never yields a slug with a double dash. */
  lemma NoSlashNoDouble(s: string, isSpace: char -> bool)
    requires '/' !in s
    ensures !DoubleDash(SlugOf(s, isSpace))
  {
    var t := TrimmedScan(s, isSpace);
    FinishCases(t);
    if t == [] {
      FallbackClean();
      CleanNoDouble(FALLBACK);
    } else if IsReserved(t) {
      SuffixClean(t);
      CleanNoDouble(t + SUFFIX);
    } else if HasDotDot(t) {
      NoSlashOneSegment(t);
      FallbackClean();
      CleanNoDouble(FALLBACK);
    } else {
      CleanNoDouble(t);
    }
  }

  ghost predicate Settles(trimmed: string) {
    !(HasDotDot(trimmed) && SlashNextToDash(trimmed))
  }

  /** Slug generation is idempotent exactly when the trimmed scan has no ".." segment, or has one
      but nowhere a slash next to a dash. */
  lemma SlugIdempotent(input: string, isSpace: char -> bool)
    ensures SlugOf(SlugOf(input, isSpace), isSpace) == SlugOf(input, isSpace) <==>
        Settles(Trim(ScanAll(input, isSpace).slug))
  {
    var t := TrimmedScan(input, isSpace);
    FinishCases(t);
    ReservedIsShort(t);
    FallbackFixed(isSpace);
    if t == [] {
      NoSlashOneSegment(t);
    } else if IsReserved(t) {
      SuffixedFixed(t, isSpace);
      NoSlashOneSegment(t);
    } else if !HasDotDot(t) {
      CleanSlugFixed(t, isSpace);
    } else if t != ".." {
      DashedAgain(t, isSpace);
    }
  }

  lemma DashedAgain(t: string, isSpace: char -> bool)
    requires Clean(t) && Trimmed(t) && t != [] && HasDotDot(t) && t != ".."
    ensures SlugOf(Dashed(t), isSpace) == Dashed(t) <==> !SlashNextToDash(t)
  {
    assert '/' !in Dashed(t);
    DashedDoubles(t);
    if SlashNextToDash(t) {
      NoSlashNoDouble(Dashed(t), isSpace);
    } else {
      DashedSettled(t, isSpace);
    }
  }

  lemma DashedSettled(t: string, isSpace: char -> bool)
    requires Clean(t) && Trimmed(t) && t != [] && HasDotDot(t) && t != ".."
    requires !DoubleDash(Dashed(t))
    ensures SlugOf(Dashed(t), isSpace) == Dashed(t)
  {
    var d := Dashed(t);
    assert '/' !in d;
    DashedClean(t);
    NoSlashOneSegment(d);
    DashedDots(t);
    DashedUnreserved(t);
    CleanSlugFixed(d, isSpace);
  }

  lemma DashedUnreserved(t: string)
    requires HasDotDot(t)
    ensures !IsReserved(Dashed(t))
  {
    DotDotHasDot(t);
    var i :| 0 <= i < |t| && t[i] == '.';
    assert Dashed(t)[i] == '.';
    ReservedIsShort(Dashed(t));
  }

  ghost predicate SlugText(s: string) {
    forall c :: c in s ==> SlugChar(c) || c == '-'
  }

  lemma SlugChars(input: string, isSpace: char -> bool)
    ensures SlugText(SlugOf(input, isSpace))
  {
    var t := TrimmedScan(input, isSpace);
    FinishCases(t);
    if t == [] {
      FixedText();
    } else if IsReserved(t) {
      FixedText();
      TextConcat(t, SUFFIX);
    } else if HasDotDot(t) {
      FixedText();
      DashedText(t);
    }
  }

  lemma FixedText()
    ensures SlugText(FALLBACK) && SlugText(SUFFIX)
  {
  }

  lemma TextConcat(s: string, t: string)
    requires Clean(s) && SlugText(t)
    ensures SlugText(s + t)
  {
  }

  lemma DashedText(t: string)
    requires Clean(t)
    ensures SlugText(Dashed(t))
  {
  }

  lemma {:induction false} LoweredFixed(s: string, lower: char -> string)
    requires forall i :: 0 <= i < |s| ==> lower(s[i]) == [s[i]]
    ensures Lowered(s, lower) == s
  {
    if s != [] {
      LoweredFixed(s[..|s| - 1], lower);
    }
  }

  /** The same for names, when lower-casing leaves the slug alphabet alone. */
  lemma SlugifyTwice(name: string, lower: char -> string, isSpace: char -> bool)
    requires forall c :: SlugChar(c) || c == '-' ==> lower(c) == [c]
    ensures var slug := SlugOf(Lowered(name, lower), isSpace);
      SlugOf(Lowered(slug, lower), isSpace) == slug <==> Settles(Trim(ScanAll(Lowered(name, lower), isSpace).slug))
  {
    var slug := SlugOf(Lowered(name, lower), isSpace);
    SlugChars(Lowered(name, lower), isSpace);
    LoweredFixed(slug, lower);
    SlugIdempotent(Lowered(name, lower), isSpace);
  }

  /** A dash before anything else is dropped. */
  lemma {:induction false} LeadingDash(s: string, isSpace: char -> bool)
    ensures ScanAll("-" + s, isSpace) == ScanAll(s, isSpace)
  {
    if s == [] {
      assert "-" + s == "-" && "-"[..0] == [];
    } else {
      assert ("-" + s)[..|"-" + s| - 1] == "-" + s[..|s| - 1];
      LeadingDash(s[..|s| - 1], isSpace);
    }
  }

  /** The part before the first slash is the first segment. */
  lemma {:induction false} FirstSegment(s: string, t: string)
    requires '/' !in s
    ensures Segments(s + ['/'] + t) == [s] + Segments(t)
  {
    var all := s + ['/'] + t;
    if s == [] {
      assert all == ['/'] + t && all[1..] == t;
    } else {
      FirstSegment(s[1..], t);
      assert all[1..] == s[1..] + ['/'] + t;
      assert [s[0]] + s[1..] == s;
    }
  }

  /** Such a name passes validation as soon as the dash hides every ".." segment. */
  lemma DashedValid(t: string)
    requires Clean(t)
    ensures Validate("-" + t) <==> |t| < 128 && !HasDotDot("-" + t)
  {
    var name := "-" + t;
    forall i | 0 <= i < |name| ensures AllowedChar(name[i]) {
      assert i > 0 ==> name[i] == t[i - 1];
    }
  }

  /** A leading dash hides a ".." segment from validation; with a slash next to a dash the slug is not stable. */
  lemma HiddenDotDot(t: string, lower: char -> string, isSpace: char -> bool)
    requires Clean(t) && Trimmed(t) && HasDotDot(t) && SlashNextToDash(t)
    requires forall c :: SlugChar(c) || c == '-' ==> lower(c) == [c]
    ensures var slug := SlugOf(Lowered("-" + t, lower), isSpace); SlugOf(Lowered(slug, lower), isSpace) != slug
    ensures Validate("-" + t) <==> |t| < 128 && !HasDotDot("-" + t)
  {
    DashedValid(t);
    LoweredFixed("-" + t, lower);
    LeadingDash(t, isSpace);
    CleanIsFixed(t, isSpace);
    TrimmedIsFixed(t);
    SlugifyTwice("-" + t, lower, isSpace);
  }

  /** Only without its leading dash the example has a ".." segment. */
  lemma ExampleSegments()
    ensures HasDotDot("../-b") && !HasDotDot("-../-b")
  {
    NoSlashOneSegment("-b");
    FirstSegment("..", "-b");
    assert ".." + ['/'] + "-b" == "../-b";
    FirstSegment("-..", "-b");
    assert "-.." + ['/'] + "-b" == "-../-b";
    assert Segments("../-b")[0] == "..";
  }

  lemma ExampleClean()
    ensures Clean("../-b") && Trimmed("../-b") && SlashNextToDash("../-b")
  {
    var t := "../-b";
    assert t[2] == '/' && t[3] == '-';
  }

  /** The valid name "-../-b" has a slug that is not stable: a second pass collapses its double dash. */
  lemma SlugNotIdempotent(lower: char -> string, isSpace: char -> bool)
    requires forall c :: SlugChar(c) || c == '-' ==> lower(c) == [c]
    ensures var name := "-../-b"; var slug := SlugOf(Lowered(name, lower), isSpace);
      Validate(name) && SlugOf(Lowered(slug, lower), isSpace) != slug
  {
    assert "-" + "../-b" == "-../-b";
    ExampleClean();
    ExampleSegments();
    HiddenDotDot("../-b", lower, isSpace);
  }

  // ── Unique slugs ──

  function Decimal(n: nat): (r: string)
    ensures |r| > 0
  {
    var digit := ('0' as int + n % 10) as char;
    if n < 10 then [digit] else Decimal(n / 10) + [digit]
  }

  lemma {:induction false} DecimalInjective(m: nat, n: nat)
    requires Decimal(m) == Decimal(n)
    ensures m == n
  {
    var a, b := Decimal(m), Decimal(n);
    assert a[|a| - 1] == b[|b| - 1];
    assert m % 10 == n % 10;
    if m >= 10 && n >= 10 {
      assert a[..|a| - 1] == Decimal(m / 10) && b[..|b| - 1] == Decimal(n / 10);
      DecimalInjective(m / 10, n / 10);
    }
  }

  function Candidate(slug: string, index: nat): string {
    slug + "-" + Decimal(index)
  }

  lemma CandidatesDiffer(slug: string, i: nat, j: nat)
    ensures Candidate(slug, i) == Candidate(slug, j) ==> i == j
    ensures Candidate(slug, i) != slug
  {
    var a, b := Candidate(slug, i), Candidate(slug, j);
    assert a[|slug| + 1..] == Decimal(i) && b[|slug| + 1..] == Decimal(j);
    assert |a| > |slug|;
    if a == b { DecimalInjective(i, j); }
  }

  /** The slug and the candidates below index. */
  ghost function Tried(slug: string, index: nat): (r: seq<string>)
    requires index >= 2
    ensures |r| == index - 1
  {
    if index == 2 then [slug] else Tried(slug, index - 1) + [Candidate(slug, index - 1)]
  }

  lemma {:induction false} TriedDistinct(slug: string, index: nat)
    requires index >= 2
    ensures Distinct(Tried(slug, index))
    ensures forall i :: 0 <= i < index - 1 ==> Tried(slug, index)[i] == if i == 0 then slug else Candidate(slug, i + 1)
  {
    if index > 2 {
      TriedDistinct(slug, index - 1);
      var shorter, next := Tried(slug, index - 1), Candidate(slug, index - 1);
      forall i | 0 <= i < |shorter| ensures shorter[i] != next {
        CandidatesDiffer(slug, index - 1, i + 1);
      }
    }
  }

  ghost function Members(s: seq<string>): set<string> {
    set x | x in s
  }

  /** Pigeonhole: as long as every earlier candidate is taken, the index stays small. */
  lemma IndexBound(slug: string, existing: seq<string>, index: nat)
    requires index >= 2 && slug in existing
    requires forall j: nat :: 2 <= j < index ==> Candidate(slug, j) in existing
    ensures index <= |Members(existing)| + 1
  {
    var tried := Tried(slug, index);
    TriedDistinct(slug, index);
    var taken := Members(existing);
    DistinctBound(tried, taken);
  }

  /** r is the slug itself if free, otherwise the slug with the least free numeric suffix from 2 on. */
  ghost predicate IsUniqueSlug(slug: string, taken: set<string>, r: string) {
    && r !in taken
    && (slug !in taken ==> r == slug)
    && (slug in taken ==>
        exists index: nat :: 2 <= index <= |taken| + 1 && IsLeastSuffix(slug, taken, index) &&
            r == Candidate(slug, index))
  }

  ghost predicate IsLeastSuffix(slug: string, taken: set<string>, index: nat) {
    Candidate(slug, index) !in taken && forall j: nat :: 2 <= j < index ==> Candidate(slug, j) in taken
  }

  /** Tries the slug, then one suffix after the other. */
  method MakeUnique(slug: string, existing: seq<string>) returns (r: string)
    ensures IsUniqueSlug(slug, Members(existing), r)
  {
    if slug !in existing {
      return slug;
    }
    var index := 2;
    IndexBound(slug, existing, index);
    while Candidate(slug, index) in existing
      invariant 2 <= index <= |Members(existing)| + 1
      invariant forall j: nat :: 2 <= j < index ==> Candidate(slug, j) in existing
      decreases |Members(existing)| + 1 - index
    {
      index := index + 1;
      IndexBound(slug, existing, index);
    }
    assert IsLeastSuffix(slug, Members(existing), index);
    return Candidate(slug, index);
  }
}
