/** Domain predicates of policy rules (crates/uk-policy/src/lib.rs) against legal names. */
module DomainMatch {
  import opened Bytes
  import opened Domains
  import Targets

  function Lower(c: Byte): (l: Byte)
  {
    if Upper(c) then c + 32 else c
  }

  function Lowered(s: seq<Byte>): (l: seq<Byte>)
    ensures |l| == |s| && forall i :: 0 <= i < |s| ==> l[i] == Lower(s[i])
  {
    if s == [] then [] else [Lower(s[0])] + Lowered(s[1..])
  }

  function TrimEndDots(s: seq<Byte>): (t: seq<Byte>)
    ensures t != [] ==> t[|t| - 1] != DOT
    ensures t <= s && (s == [] || s[|s| - 1] != DOT ==> t == s)
  {
    if s != [] && s[|s| - 1] == DOT then TrimEndDots(s[..|s| - 1]) else s
  }

  function Normalize(s: seq<Byte>): (n: seq<Byte>)
  {
    Lowered(TrimEndDots(s))
  }

  predicate HasSuffix(s: seq<Byte>, t: seq<Byte>)
  {
    |t| <= |s| && s[|s| - |t|..] == t
  }

  predicate MatchesSuffix(domain: seq<Byte>, suffix: seq<Byte>)
  {
    var d, s := Normalize(domain), Normalize(suffix);
    if s == [] then false
    else if s[0] == DOT then s[1..] != [] && |d| > |s[1..]| && HasSuffix(d, s)
    else d == s || (HasSuffix(d, s) && |s| < |d| && d[|d| - |s| - 1] == DOT)
  }

  // ---------------------------------------------------------------------------------------------
  // Patterns a configuration may hold.
  // ---------------------------------------------------------------------------------------------

  predicate LegalPattern(pattern: seq<Byte>)
  {
    var s := if pattern != [] && pattern[0] == DOT then pattern[1..] else pattern;
    var t := if s != [] && s[|s| - 1] == DOT then s[..|s| - 1] else s;
    Legal(t)
  }

  predicate AcceptedSuffix(suffix: seq<Byte>)
  {
    LegalPattern(Normalize(suffix))
  }

  /** A pattern with a leading dot wants a proper subdomain. */
  predicate Dotted(suffix: seq<Byte>)
  {
    var n := Normalize(suffix);
    n != [] && n[0] == DOT
  }

  /** The name a pattern is about: normalized, without the leading dot. */
  function Core(suffix: seq<Byte>): (core: seq<Byte>)
  {
    var n := Normalize(suffix);
    if n != [] && n[0] == DOT then n[1..] else n
  }

  lemma NormalizedEnds(s: seq<Byte>)
    ensures Normalize(s) != [] ==> Normalize(s)[|Normalize(s)| - 1] != DOT
    ensures forall i :: 0 <= i < |Normalize(s)| ==> Lower(Normalize(s)[i]) == Normalize(s)[i]
  {
  }

  lemma StaysLowered(s: seq<Byte>)
    requires forall i :: 0 <= i < |s| ==> Lower(s[i]) == s[i]
    ensures Lowered(s) == s
  {
  }

  lemma PatternCore(n: seq<Byte>)
    requires LegalPattern(n) && (n != [] ==> n[|n| - 1] != DOT)
    ensures Legal(if n != [] && n[0] == DOT then n[1..] else n)
  {
    if n != [] && n[0] == DOT {
      assert n[1..] != [] ==> n[1..][|n| - 2] == n[|n| - 1];
    }
  }

  lemma AcceptedCore(suffix: seq<Byte>)
    requires AcceptedSuffix(suffix)
    ensures Legal(Core(suffix))
  {
    NormalizedEnds(suffix);
    PatternCore(Normalize(suffix));
  }

  lemma CoreOf(suffix: seq<Byte>)
    ensures Normalize(suffix) == (if Dotted(suffix) then [DOT] else []) + Core(suffix)
    ensures Lowered(Core(suffix)) == Core(suffix)
  {
    NormalizedEnds(suffix);
    StaysLowered(Core(suffix));
  }

  lemma LegalNormalizes(domain: seq<Byte>)
    requires Legal(domain)
    ensures domain != [] && domain[0] != DOT && Normalize(domain) == Lowered(domain)
  {
  }

  /** `inner` is the tail of `outer`; a strict tail when `strict`. */
  predicate LabelSuffix(outer: seq<seq<Byte>>, inner: seq<seq<Byte>>, strict: bool)
  {
    && |inner| <= |outer|
    && (strict ==> |inner| < |outer|)
    && outer[|outer| - |inner|..] == inner
  }

  /** A name ends in a dot and `core` exactly when its labels properly end in `core`'s labels. */
  lemma DotSuffixIsLabelSuffix(d: seq<Byte>, core: seq<Byte>)
    ensures HasSuffix(d, [DOT] + core) <==> LabelSuffix(Split(d), Split(core), true)
  {
    if HasSuffix(d, [DOT] + core) {
      var x := d[..|d| - |core| - 1];
      assert d == x + [DOT] + core;
      SplitAcross(x, core);
    }
    if LabelSuffix(Split(d), Split(core), true) {
      var above := Split(d)[..|Split(d)| - |Split(core)|];
      assert Split(d) == above + Split(core);
      JoinSplit(d);
      JoinSplit(core);
      JoinAcross(above, Split(core));
      assert d[|d| - |core| - 1..] == [DOT] + core;
    }
  }

  lemma {:induction false} JoinAcross(a: seq<seq<Byte>>, b: seq<seq<Byte>>)
    requires a != [] && b != []
    ensures Join(a + b) == Join(a) + ([DOT] + Join(b))
  {
    assert (a + b)[1..] == a[1..] + b;
    if |a| == 1 {
      assert a[1..] + b == b;
      Associates(a[0], [DOT], Join(b));
    } else {
      JoinAcross(a[1..], b);
      Associates(a[0] + [DOT], Join(a[1..]), [DOT] + Join(b));
    }
  }

  /**
   On legal targets and accepted patterns, byte-level suffix matching is suffix of label lists:
   a proper suffix when the pattern has a leading dot, any suffix when it has none.
   */
  lemma SuffixMatchIsLabelSuffix(domain: seq<Byte>, suffix: seq<Byte>)
    requires Legal(domain) && AcceptedSuffix(suffix)
    ensures MatchesSuffix(domain, suffix) <==>
      LabelSuffix(Split(Lowered(domain)), Split(Core(suffix)), Dotted(suffix))
  {
    LegalNormalizes(domain);
    AcceptedCore(suffix);
    LegalNormalizes(Core(suffix));
    MatchesByLabels(domain, suffix);
  }

  lemma MatchesByLabels(domain: seq<Byte>, suffix: seq<Byte>)
    requires Normalize(domain) == Lowered(domain) && Core(suffix) != []
    ensures MatchesSuffix(domain, suffix) <==>
      LabelSuffix(Split(Lowered(domain)), Split(Core(suffix)), Dotted(suffix))
  {
    var d, core := Lowered(domain), Core(suffix);
    CoreOf(suffix);
    DotSuffixIsLabelSuffix(d, core);
    if !Dotted(suffix) {
      SuffixAfterDot(d, core);
      SameLabels(d, core);
    }
  }

  lemma SuffixAfterDot(d: seq<Byte>, core: seq<Byte>)
    ensures HasSuffix(d, [DOT] + core) <==> HasSuffix(d, core) && |core| < |d| && d[|d| - |core| - 1] == DOT
  {
    if |core| < |d| {
      assert d[|d| - |core| - 1..] == [d[|d| - |core| - 1]] + d[|d| - |core|..];
    }
  }

  lemma SameLabels(d: seq<Byte>, core: seq<Byte>)
    ensures d == core <==> Split(d) == Split(core)
    ensures LabelSuffix(Split(d), Split(core), false) <==> LabelSuffix(Split(d), Split(core), true) || d == core
  {
    JoinSplit(d);
    JoinSplit(core);
    if |Split(d)| == |Split(core)| {
      assert Split(d)[0..] == Split(d);
    }
  }

  // ---------------------------------------------------------------------------------------------
  // Which accepted patterns can match at all.
  // ---------------------------------------------------------------------------------------------

  ghost predicate Matchable(suffix: seq<Byte>)
  {
    exists domain :: Legal(domain) && MatchesSuffix(domain, suffix)
  }

  const ONE_LETTER: seq<Byte> := [Targets.LETTER_A]

  /** A legal core with a one-letter label in front of it is legal while it fits. */
  lemma SubdomainIsLegal(core: seq<Byte>)
    requires Legal(core) && |core| <= 253
    ensures Legal(ONE_LETTER + [DOT] + core) && Split(ONE_LETTER + [DOT] + core) == [ONE_LETTER] + Split(core)
  {
    var sub := ONE_LETTER + [DOT] + core;
    SplitAcross(ONE_LETTER, core);
    SplitOne(ONE_LETTER);
    LegalIffLabels(core);
    OneMoreLabel(ONE_LETTER, Split(core));
    LegalIffLabels(sub);
  }

  lemma OneMoreLabel(lab: seq<Byte>, labels: seq<seq<Byte>>)
    requires Hostlike(lab) && !IpShapedLabel(lab) && AllHostlike(labels)
    ensures AllHostlike([lab] + labels) && !IpShaped([lab] + labels)
  {
    assert ([lab] + labels)[0] == lab;
  }

  /** A pattern without a leading dot always matches its own name. */
  lemma PlainPatternMatches(suffix: seq<Byte>)
    requires AcceptedSuffix(suffix) && !Dotted(suffix)
    ensures Matchable(suffix)
  {
    AcceptedCore(suffix);
    CoreOf(suffix);
    LegalNormalizes(Core(suffix));
    assert MatchesSuffix(Core(suffix), suffix);
  }

  /**
   A pattern with a leading dot can match some legal target exactly when its name leaves room for one
   more label: 254 and 255 byte names are accepted and never match.
   */
  lemma DottedPatternMatchesIff(suffix: seq<Byte>)
    requires AcceptedSuffix(suffix) && Dotted(suffix)
    ensures Matchable(suffix) <==> |Core(suffix)| <= 253
  {
    if |Core(suffix)| <= 253 {
      SubdomainMatches(suffix);
    }
    forall domain | Legal(domain) && MatchesSuffix(domain, suffix)
      ensures |Core(suffix)| <= 253
    {
      MatchLeavesRoom(domain, suffix);
    }
  }

  lemma SubdomainMatches(suffix: seq<Byte>)
    requires AcceptedSuffix(suffix) && Dotted(suffix) && |Core(suffix)| <= 253
    ensures Legal(ONE_LETTER + [DOT] + Core(suffix)) && MatchesSuffix(ONE_LETTER + [DOT] + Core(suffix), suffix)
  {
    var sub := ONE_LETTER + [DOT] + Core(suffix);
    AcceptedCore(suffix);
    CoreOf(suffix);
    SubdomainIsLegal(Core(suffix));
    StaysLowered(sub);
    SuffixMatchIsLabelSuffix(sub, suffix);
  }

  lemma MatchLeavesRoom(domain: seq<Byte>, suffix: seq<Byte>)
    requires Legal(domain) && Dotted(suffix) && MatchesSuffix(domain, suffix)
    ensures |Core(suffix)| <= 253
  {
    LegalNormalizes(domain);
    var d, s := Lowered(domain), Normalize(suffix);
    assert Lower(domain[0]) != DOT;
    DoesNotStartWithDot(d, s);
  }

  /** So a name that ends in a dotted suffix has at least one byte before it. */
  lemma DoesNotStartWithDot(d: seq<Byte>, s: seq<Byte>)
    requires d != [] && d[0] != DOT && s != [] && s[0] == DOT && HasSuffix(d, s)
    ensures |d| > |s|
  {
    assert d[|d| - |s|] == d[|d| - |s|..][0];
  }

  predicate Lowercase(s: seq<Byte>)
  {
    forall i :: 0 <= i < |s| ==> !Upper(s[i])
  }

  lemma {:induction false} JoinLowercase(labels: seq<seq<Byte>>)
    requires labels != [] && forall i :: 0 <= i < |labels| ==> Lowercase(labels[i])
    ensures Lowercase(Join(labels))
  {
    if |labels| > 1 {
      JoinLowercase(labels[1..]);
    }
  }

  lemma LongestNameIsLowercase()
    ensures Lowercase(Targets.LongestName())
  {
    var lab := Fill(63, Targets.LETTER_A);
    JoinLowercase([lab, lab, lab, lab]);
  }

  /** A lowercase legal name behind a dot is accepted as it stands. */
  lemma DottedNameIsAccepted(name: seq<Byte>)
    requires Legal(name) && Lowercase(name)
    ensures AcceptedSuffix([DOT] + name) && Dotted([DOT] + name) && Core([DOT] + name) == name
  {
    var pattern := [DOT] + name;
    LegalNormalizes(name);
    assert name[|name| - 1] != DOT;
    assert pattern[|pattern| - 1] == name[|name| - 1];
    StaysLowered(pattern);
    assert Normalize(pattern) == pattern && pattern[1..] == name;
  }

  /** Such a pattern: a dot and a legal name of 255 bytes is accepted, and no legal target matches it. */
  lemma LongestPatternNeverMatches()
    ensures AcceptedSuffix([DOT] + Targets.LongestName()) && !Matchable([DOT] + Targets.LongestName())
  {
    var name := Targets.LongestName();
    Targets.LongestNameIsLegal();
    LongestNameIsLowercase();
    DottedNameIsAccepted(name);
    DottedPatternMatchesIff([DOT] + name);
  }

  // ---------------------------------------------------------------------------------------------
  // Spelling does not matter.
  // ---------------------------------------------------------------------------------------------

  /** The same letter but for its case. */
  predicate SameLetter(c: Byte, d: Byte)
  {
    c == d || (65 <= c <= 90 && d == c + 32) || (65 <= d <= 90 && c == d + 32)
  }

  lemma LetterIsLowered(c: Byte, d: Byte)
    ensures SameLetter(c, d) <==> Lower(c) == Lower(d)
  {
  }

  /** The same text but for the case of ASCII letters. */
  predicate SameButCase(d: seq<Byte>, e: seq<Byte>)
  {
    |d| == |e| && forall i :: 0 <= i < |d| ==> SameLetter(d[i], e[i])
  }

  lemma CaseIsLowered(d: seq<Byte>, e: seq<Byte>)
    ensures SameButCase(d, e) <==> Lowered(d) == Lowered(e)
  {
    if |d| == |e| {
      forall i | 0 <= i < |d|
        ensures SameLetter(d[i], e[i]) <==> Lowered(d)[i] == Lowered(e)[i]
      {
        LetterIsLowered(d[i], e[i]);
      }
    }
  }

  lemma NormalFormDecides(domain: seq<Byte>, domain': seq<Byte>, suffix: seq<Byte>, suffix': seq<Byte>)
    requires Normalize(domain) == Normalize(domain') && Normalize(suffix) == Normalize(suffix')
    ensures MatchesSuffix(domain, suffix) == MatchesSuffix(domain', suffix')
  {
  }

  /** Case makes no difference, neither in the target nor in the pattern. */
  lemma CaseIsIgnored(domain: seq<Byte>, domain': seq<Byte>, suffix: seq<Byte>, suffix': seq<Byte>)
    requires SameButCase(TrimEndDots(domain), TrimEndDots(domain')) && SameButCase(TrimEndDots(suffix), TrimEndDots(suffix'))
    ensures MatchesSuffix(domain, suffix) == MatchesSuffix(domain', suffix')
  {
    CaseIsLowered(TrimEndDots(domain), TrimEndDots(domain'));
    CaseIsLowered(TrimEndDots(suffix), TrimEndDots(suffix'));
    NormalFormDecides(domain, domain', suffix, suffix');
  }

  /** A trailing dot in a pattern makes no difference. */
  lemma TrailingDotIsIgnored(domain: seq<Byte>, suffix: seq<Byte>)
    ensures MatchesSuffix(domain, suffix + [DOT]) == MatchesSuffix(domain, suffix)
    ensures AcceptedSuffix(suffix + [DOT]) == AcceptedSuffix(suffix)
  {
    DotIsTrimmed(suffix);
    NormalFormDecides(domain, domain, suffix, suffix + [DOT]);
  }

  lemma DotIsTrimmed(s: seq<Byte>)
    ensures Normalize(s + [DOT]) == Normalize(s)
  {
    assert (s + [DOT])[..|s|] == s;
  }
}
