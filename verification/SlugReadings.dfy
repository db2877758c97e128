/** Names and slugs, character by character. */
module SlugReadings {
  import opened Wrappers
  import opened JsonValues
  import opened TimestampText
  import opened Naming

  // ── Validation ──

  /** The codes of the small and capital letters and the digits, of '_', '/', '.' and '-'. */
  predicate NameCode(code: int) {
    97 <= code <= 122 || 65 <= code <= 90 || 48 <= code <= 57 || code in {95, 47, 46, 45}
  }

  /** Two dots at position i make up everything between two slashes or ends. */
  ghost predicate DotDotAt(s: string, i: nat) {
    && i + 2 <= |s| && s[i] == '.' && s[i + 1] == '.'
    && (i == 0 || s[i - 1] == '/') && (i + 2 == |s| || s[i + 2] == '/')
  }

  ghost predicate DotDotSomewhere(s: string) {
    exists i: nat :: DotDotAt(s, i)
  }

  lemma FirstSlash(s: string) returns (p: nat)
    ensures p <= |s| && '/' !in s[..p] && (p < |s| ==> s[p] == '/')
  {
    p := 0;
    while p < |s| && s[p] != '/'
      invariant p <= |s| && '/' !in s[..p]
    {
      assert s[..p + 1] == s[..p] + [s[p]];
      p := p + 1;
    }
  }

  lemma {:induction false} DotDotReads(s: string)
    ensures HasDotDot(s) <==> DotDotSomewhere(s)
    decreases |s|
  {
    var p := FirstSlash(s);
    if p == |s| {
      assert s[..p] == s;
      NoSlashOneSegment(s);
      WholeDotDot(s);
    } else {
      var head, rest := s[..p], s[p + 1..];
      assert s == head + ['/'] + rest;
      FirstSegment(head, rest);
      DotDotReads(rest);
      DotDotSplit(head, rest, s);
    }
  }

  lemma WholeDotDot(s: string)
    requires '/' !in s
    ensures DotDotSomewhere(s) <==> s == ".."
  {
    if DotDotSomewhere(s) {
      var i: nat :| DotDotAt(s, i);
      assert i == 0 && |s| == 2;
    }
    if s == ".." { assert DotDotAt(s, 0); }
  }

  lemma DotDotSplit(head: string, rest: string, s: string)
    requires '/' !in head && s == head + ['/'] + rest
    ensures DotDotSomewhere(s) <==> head == ".." || DotDotSomewhere(rest)
  {
    var p := |head|;
    if DotDotSomewhere(s) {
      var i: nat :| DotDotAt(s, i);
      if i <= p {
        assert forall q :: 0 <= q < p ==> s[q] == head[q] && head[q] in head;
        assert i == 0 && p == 2;
        assert head == "..";
      } else {
        assert DotDotAt(rest, i - p - 1);
      }
    }
    if head == ".." { assert DotDotAt(s, 0); }
    if DotDotSomewhere(rest) {
      var i: nat :| DotDotAt(rest, i);
      assert DotDotAt(s, i + p + 1);
    }
  }

  /** A name is valid exactly if it has 1 to 128 letters, digits, underscores, slashes, dots and dashes, no slash in
      front and nowhere just two dots between slashes. */
  lemma ValidExactly(name: string)
    ensures Validate(name) <==>
              && 1 <= |name| <= 128 && (forall i :: 0 <= i < |name| ==> NameCode(name[i] as int))
              && name[0] != '/' && forall i: nat :: !DotDotAt(name, i)
  {
    DotDotReads(name);
    forall i | 0 <= i < |name| ensures AllowedChar(name[i]) <==> NameCode(name[i] as int) { }
  }

  // ── The scan ──

  /** The codes of the small letters and the digits, of '_', '/' and '.'. */
  predicate KeptCode(code: int) {
    97 <= code <= 122 || 48 <= code <= 57 || code in {95, 47, 46}
  }

  /** Kept characters stand for themselves, dashes and white space for a dash, anything else for nothing. */
  ghost function Token(c: char, isSpace: char -> bool): string {
    if KeptCode(c as int) then [c] else if c == '-' || isSpace(c) then "-" else ""
  }

  ghost function Tokens(input: string, isSpace: char -> bool): string {
    if input == "" then ""
    else Tokens(input[..|input| - 1], isSpace) + Token(input[|input| - 1], isSpace)
  }

  /** Drops a dash in front or behind another dash, and a slash behind a slash. */
  ghost function Collapsed(tokens: string): string {
    if tokens == "" then ""
    else
      var before, c := Collapsed(tokens[..|tokens| - 1]), tokens[|tokens| - 1];
      if c == '-' && (before == "" || before[|before| - 1] == '-') then before
      else if c == '/' && before != "" && before[|before| - 1] == '/' then before
      else before + [c]
  }

  ghost function FirstChars(s: string, n: nat): string {
    if |s| <= n then s else s[..n]
  }

  ghost predicate ScanIs(st: Scan, collapsed: string) {
    st.slug == FirstChars(collapsed, 128) && (|st.slug| < 128 ==> (st.lastWasDash <==> EndsWith(st.slug, '-')))
  }

  lemma ScanPush(st: Scan, collapsed: string, c: char, isSpace: char -> bool)
    requires ScanIs(st, collapsed) && Token(c, isSpace) != ""
    ensures var t := Token(c, isSpace)[0];
      var dropped := (t == '-' && (collapsed == "" || collapsed[|collapsed| - 1] == '-'))
          || (t == '/' && collapsed != "" && collapsed[|collapsed| - 1] == '/');
      ScanIs(Step(st, c, isSpace), if dropped then collapsed else collapsed + [t])
  {
  }

  lemma CollapsedStep(s: string, c: char)
    ensures var before := Collapsed(s);
      Collapsed(s + [c]) == if (c == '-' && (before == "" || before[|before| - 1] == '-'))
                               || (c == '/' && before != "" && before[|before| - 1] == '/')
                            then before else before + [c]
  {
    assert (s + [c])[..|s|] == s;
  }

  lemma ScanStep(st: Scan, tokens: string, c: char, isSpace: char -> bool)
    requires ScanIs(st, Collapsed(tokens))
    ensures ScanIs(Step(st, c, isSpace), Collapsed(tokens + Token(c, isSpace)))
  {
    var t := Token(c, isSpace);
    if t != "" {
      assert t == [t[0]];
      CollapsedStep(tokens, t[0]);
      ScanPush(st, Collapsed(tokens), c, isSpace);
    } else {
      assert tokens + t == tokens;
    }
  }

  /** The scan output is the first 128 characters of the collapsed tokens. */
  lemma {:induction false} ScanReads(input: string, isSpace: char -> bool)
    ensures ScanIs(ScanAll(input, isSpace), Collapsed(Tokens(input, isSpace)))
  {
    if input != "" {
      ScanReads(input[..|input| - 1], isSpace);
      ScanStep(ScanAll(input[..|input| - 1], isSpace), Tokens(input[..|input| - 1], isSpace), input[|input| - 1],
               isSpace);
    }
  }

  // ── The slug ──

  predicate IsEdge(c: char) {
    c as int in {45, 95, 47}
  }

  /** t is what is left of s when '-', '_' and '/' are cut off both ends. */
  ghost predicate CutFrom(t: string, s: string) {
    exists i, j :: 0 <= i <= j <= |s| && CutAt(t, s, i, j)
  }

  ghost predicate CutAt(t: string, s: string, i: int, j: int)
    requires 0 <= i <= j <= |s|
  {
    && t == s[i..j] && (t != "" ==> !IsEdge(t[0]) && !IsEdge(t[|t| - 1]))
    && (forall k :: 0 <= k < i ==> IsEdge(s[k])) && (forall k :: j <= k < |s| ==> IsEdge(s[k]))
  }

  lemma TrimReads(s: string)
    ensures CutFrom(Trim(s), s)
  {
    var i, j := TrimSpec(s);
    if i == j {
      assert forall k :: 0 <= k < |s| ==> IsEdge(s[k]);
      assert s[0..0] == "" && CutAt(Trim(s), s, 0, 0);
    } else {
      assert CutAt(Trim(s), s, i, j);
    }
  }

  ghost function NoSlashes(s: string): string {
    if s == "" then "" else NoSlashes(s[..|s| - 1]) + if s[|s| - 1] == '/' then "-" else [s[|s| - 1]]
  }

  lemma {:induction false} DashedReads(s: string)
    ensures Dashed(s) == NoSlashes(s)
  {
    if s != "" {
      DashedReads(s[..|s| - 1]);
      assert Dashed(s) == Dashed(s[..|s| - 1]) + [Dashed(s)[|s| - 1]];
    }
  }

  ghost predicate IsWord(t: string) {
    t == "trunk" || t == "main" || t == "master" || t == "head"
  }

  /** Text without capital letters is reserved exactly if it is one of four words. */
  lemma ReservedReads(t: string)
    requires forall i :: 0 <= i < |t| ==> !('A' <= t[i] <= 'Z')
    ensures IsReserved(t) <==> IsWord(t)
  {
    assert AsciiLower(t) == t;
  }

  /** The slug of trimmed scan output: "branch" for nothing, a reserved word gets "-branch" behind, text with a ".."
      segment its slashes replaced, and just ".." becomes "branch" too. */
  ghost function SlugFrom(t: string): string {
    if t == "" || t == ".." then "branch"
    else if IsWord(t) then t + "-branch"
    else if DotDotSomewhere(t) then NoSlashes(t)
    else t
  }

  lemma FewDots(t: string)
    ensures t == ".." ==> DotDotSomewhere(t) && !IsWord(t)
    ensures t == "" ==> !DotDotSomewhere(t) && !IsWord(t)
  {
    if t == ".." { assert DotDotAt(t, 0); }
  }

  lemma FinishByCase(t: string, reserved: bool, dots: bool, dashed: string)
    requires Clean(t) && Trimmed(t) && reserved == IsReserved(t) && dots == HasDotDot(t) && dashed == Dashed(t)
    ensures t == "" ==> Finish(t) == "branch"
    ensures reserved ==> Finish(t) == t + "-branch"
    ensures t != "" && !reserved ==> Finish(t) == if !dots then t else if t == ".." then "branch" else dashed
  {
    FinishCases(t);
  }

  lemma FinishReads(t: string)
    requires Clean(t) && Trimmed(t)
    ensures Finish(t) == SlugFrom(t)
  {
    FinishByCase(t, IsReserved(t), HasDotDot(t), Dashed(t));
    NoCapitals(t);
    ReservedReads(t);
    DotDotReads(t);
    DashedReads(t);
    FewDots(t);
  }

  lemma NoCapitals(t: string)
    requires Clean(t)
    ensures forall i :: 0 <= i < |t| ==> !('A' <= t[i] <= 'Z')
  {
  }

  /** The slug comes from the first 128 collapsed tokens, without the edge characters. */
  lemma SlugReads(input: string, isSpace: char -> bool) returns (t: string)
    ensures CutFrom(t, FirstChars(Collapsed(Tokens(input, isSpace)), 128))
    ensures SlugOf(input, isSpace) == SlugFrom(t)
  {
    ScanReads(input, isSpace);
    t := TrimmedScan(input, isSpace);
    TrimReads(ScanAll(input, isSpace).slug);
    FinishReads(t);
  }

  /** Lower-casing goes character by character. */
  lemma {:induction false} LoweredReads(a: string, b: string, c: char, lower: char -> string)
    ensures Lowered([c], lower) == lower(c) && Lowered(a + b, lower) == Lowered(a, lower) + Lowered(b, lower)
  {
    assert [c][..0] == "" && Lowered([c], lower) == Lowered("", lower) + lower(c);
    if b == "" {
      assert a + b == a;
    } else {
      var n := |b| - 1;
      assert (a + b)[..|a + b| - 1] == a + b[..n];
      LoweredReads(a, b[..n], c, lower);
    }
  }

  // ── The suffix ──

  /** A suffix is the decimal notation of its index, without leading zero. */
  lemma {:induction false} DecimalReads(n: nat)
    ensures AllDigits(Decimal(n)) && ValueOf(Decimal(n)) == n && (n > 0 ==> Decimal(n)[0] != '0')
  {
    DigitsOfDecimal(n);
    DigitsExactly(Decimal(n));
    if n >= 10 {
      DecimalReads(n / 10);
      assert Decimal(n)[0] == Decimal(n / 10)[0];
    }
  }

  /** text is the decimal notation of n. */
  ghost predicate Denotes(text: string, n: nat) {
    AllDigits(text) && ValueOf(text) == n && (n > 0 ==> text[0] != '0')
  }

  /** r is the slug, a dash and the notation of n. */
  ghost predicate Suffixed(slug: string, n: nat, r: string) {
    |r| > |slug| + 1 && r[..|slug|] == slug && r[|slug|] == '-' && Denotes(r[|slug| + 1..], n)
  }

  ghost predicate SuffixTaken(slug: string, taken: set<string>, n: nat) {
    exists r :: r in taken && Suffixed(slug, n, r)
  }

  ghost predicate LowerTaken(slug: string, taken: set<string>, n: nat) {
    forall j: nat :: 2 <= j < n ==> SuffixTaken(slug, taken, j)
  }

  lemma CandidateReads(slug: string, n: nat)
    ensures Suffixed(slug, n, Candidate(slug, n))
  {
    DecimalReads(n);
    var r := Candidate(slug, n);
    assert r == slug + ['-'] + Decimal(n);
    assert r[|slug| + 1..] == Decimal(n);
  }

  /** A free slug stays; a taken one gets a dash and the least number from 2 on that makes it free. */
  lemma UniqueReads(slug: string, taken: set<string>, r: string)
    requires IsUniqueSlug(slug, taken, r)
    ensures r !in taken && (slug !in taken ==> r == slug)
    ensures slug in taken ==>
              exists n: nat :: n >= 2 && Suffixed(slug, n, r) && LowerTaken(slug, taken, n)
  {
    if slug in taken {
      var n: nat :| 2 <= n <= |taken| + 1 && IsLeastSuffix(slug, taken, n) && r == Candidate(slug, n);
      CandidateReads(slug, n);
      forall j: nat | 2 <= j < n ensures SuffixTaken(slug, taken, j) {
        CandidateReads(slug, j);
        assert Candidate(slug, j) in taken;
      }
    }
  }
}
