/**
 Host names as `Target::Domain` requires them (crates/uk-proto/src/target.rs), as byte strings and as
 lists of labels. A legal name is ASCII.
 */
module Domains {
  import opened Bytes

  const DOT: Byte := 46
  const HYPHEN: Byte := 45

  predicate Digit(c: Byte) { 48 <= c <= 57 }
  predicate Upper(c: Byte) { 65 <= c <= 90 }
  predicate Alphanumeric(c: Byte) { Digit(c) || Upper(c) || 97 <= c <= 122 }
  predicate HexDigit(c: Byte) { Digit(c) || 65 <= c <= 70 || 97 <= c <= 102 }
  predicate Control(c: Byte) { c < 32 || c == 127 }

  // ---------------------------------------------------------------------------------------------
  // Labels.
  // ---------------------------------------------------------------------------------------------

  /** `str::split('.')`. */
  function Split(s: seq<Byte>): (labels: seq<seq<Byte>>)
    ensures labels != []
  {
    if s == [] then [[]]
    else
      var rest := Split(s[1..]);
      if s[0] == DOT then [[]] + rest else [[s[0]] + rest[0]] + rest[1..]
  }

  function Join(labels: seq<seq<Byte>>): (s: seq<Byte>)
    requires labels != []
  {
    if |labels| == 1 then labels[0] else labels[0] + [DOT] + Join(labels[1..])
  }

  lemma JoinEmptyFirst(rest: seq<seq<Byte>>)
    requires rest != []
    ensures Join([[]] + rest) == [DOT] + Join(rest)
  {
    assert ([[]] + rest)[1..] == rest;
  }

  lemma JoinLongerFirst(c: Byte, rest: seq<seq<Byte>>)
    requires rest != []
    ensures Join([[c] + rest[0]] + rest[1..]) == [c] + Join(rest)
  {
    assert ([[c] + rest[0]] + rest[1..])[1..] == rest[1..];
    if |rest| > 1 {
      Associates([c], rest[0], [DOT]);
      Associates([c], rest[0] + [DOT], Join(rest[1..]));
    }
  }

  lemma {:induction false} JoinSplit(s: seq<Byte>)
    ensures Join(Split(s)) == s
  {
    if s != [] {
      var rest := Split(s[1..]);
      JoinSplit(s[1..]);
      if s[0] == DOT {
        JoinEmptyFirst(rest);
      } else {
        JoinLongerFirst(s[0], rest);
      }
      assert s == [s[0]] + s[1..];
    }
  }

  /** Splitting at a dot splits on each side of it. */
  lemma {:induction false} SplitAcross(a: seq<Byte>, b: seq<Byte>)
    ensures Split(a + [DOT] + b) == Split(a) + Split(b)
  {
    var s := a + [DOT] + b;
    if a == [] {
      assert s[1..] == b;
    } else {
      var rest, later := Split(a[1..]), Split(b);
      assert s[1..] == a[1..] + [DOT] + b;
      SplitAcross(a[1..], b);
      TailGrows(rest, later, 1);
      Associates([[]], rest, later);
      Associates([[a[0]] + rest[0]], rest[1..], later);
    }
  }

  predicate DotFree(lab: seq<Byte>)
  {
    forall i :: 0 <= i < |lab| ==> lab[i] != DOT
  }

  lemma {:induction false} SplitOne(lab: seq<Byte>)
    requires DotFree(lab)
    ensures Split(lab) == [lab]
  {
    if lab != [] {
      SplitOne(lab[1..]);
      assert lab == [lab[0]] + lab[1..];
    }
  }

  lemma {:induction false} SplitJoin(labels: seq<seq<Byte>>)
    requires labels != [] && forall i :: 0 <= i < |labels| ==> DotFree(labels[i])
    ensures Split(Join(labels)) == labels
  {
    SplitOne(labels[0]);
    if |labels| > 1 {
      SplitJoin(labels[1..]);
      SplitAcross(labels[0], Join(labels[1..]));
      assert labels == [labels[0]] + labels[1..];
    } else {
      assert labels == [labels[0]];
    }
  }

  // ---------------------------------------------------------------------------------------------
  // Legal names.
  // ---------------------------------------------------------------------------------------------

  predicate AllDigits(s: seq<Byte>)
  {
    forall i :: 0 <= i < |s| ==> Digit(s[i])
  }

  predicate AllHex(s: seq<Byte>)
  {
    forall i :: 0 <= i < |s| ==> HexDigit(s[i])
  }

  /** A label a POSIX resolver would read as a number. */
  predicate IpShapedLabel(lab: seq<Byte>)
  {
    || (lab != [] && AllDigits(lab))
    || (|lab| >= 2 && lab[0] == 48 && (lab[1] == 120 || lab[1] == 88) && AllHex(lab[2..]))
  }

  predicate IpShaped(labels: seq<seq<Byte>>)
  {
    forall i :: 0 <= i < |labels| ==> IpShapedLabel(labels[i])
  }

  predicate LabelFits(lab: seq<Byte>)
  {
    0 < |lab| <= 63 && lab[0] != HYPHEN && lab[|lab| - 1] != HYPHEN
  }

  predicate HasControl(d: seq<Byte>)
  {
    exists i :: 0 <= i < |d| && Control(d[i])
  }

  /** No dot first, last or next to another. */
  predicate DotsInside(d: seq<Byte>)
  {
    && d != [] && d[0] != DOT && d[|d| - 1] != DOT
    && forall i :: 0 <= i < |d| - 1 ==> !(d[i] == DOT && d[i + 1] == DOT)
  }

  predicate AllFit(labels: seq<seq<Byte>>)
  {
    forall i :: 0 <= i < |labels| ==> LabelFits(labels[i])
  }

  predicate HostChars(d: seq<Byte>)
  {
    forall i :: 0 <= i < |d| ==> Alphanumeric(d[i]) || d[i] == DOT || d[i] == HYPHEN
  }

  /** The checks of `validate_domain`, in its order. */
  predicate Legal(d: seq<Byte>)
  {
    && 0 < |d| <= 255
    && !HasControl(d)
    && !IpShaped(Split(d))
    && DotsInside(d)
    && HostChars(d)
    && AllFit(Split(d))
  }

  predicate LabelChars(lab: seq<Byte>)
  {
    forall i :: 0 <= i < |lab| ==> Alphanumeric(lab[i]) || lab[i] == HYPHEN
  }

  /** A label of letters, digits and inner hyphens, at most 63 long. */
  predicate Hostlike(lab: seq<Byte>)
  {
    LabelFits(lab) && LabelChars(lab)
  }

  predicate AllHostlike(labels: seq<seq<Byte>>)
  {
    forall i :: 0 <= i < |labels| ==> Hostlike(labels[i])
  }

  predicate AllLabelChars(labels: seq<seq<Byte>>)
  {
    forall k :: 0 <= k < |labels| ==> LabelChars(labels[k])
  }

  lemma LabelCharsCons(c: Byte, lab: seq<Byte>)
    ensures LabelChars([c] + lab) <==> (Alphanumeric(c) || c == HYPHEN) && LabelChars(lab)
  {
    assert ([c] + lab)[0] == c;
    assert forall i :: 0 <= i < |lab| ==> lab[i] == ([c] + lab)[i + 1];
  }

  lemma AllLabelCharsCons(first: seq<Byte>, rest: seq<seq<Byte>>)
    ensures AllLabelChars([first] + rest) <==> LabelChars(first) && AllLabelChars(rest)
  {
    assert ([first] + rest)[0] == first;
    assert forall k :: 0 <= k < |rest| ==> rest[k] == ([first] + rest)[k + 1];
  }

  lemma HostCharsCons(c: Byte, t: seq<Byte>)
    ensures HostChars([c] + t) <==> (Alphanumeric(c) || c == DOT || c == HYPHEN) && HostChars(t)
  {
    assert ([c] + t)[0] == c;
    assert forall i :: 0 <= i < |t| ==> t[i] == ([c] + t)[i + 1];
  }

  /** The character rule on a name is the character rule on its labels. */
  lemma {:induction false} CharsOfLabels(d: seq<Byte>)
    ensures HostChars(d) <==> AllLabelChars(Split(d))
  {
    if d != [] {
      var t, rest := d[1..], Split(d[1..]);
      CharsOfLabels(t);
      HostCharsCons(d[0], t);
      assert d == [d[0]] + t;
      if d[0] == DOT {
        AllLabelCharsCons([], rest);
      } else {
        LabelCharsCons(d[0], rest[0]);
        AllLabelCharsCons([d[0]] + rest[0], rest[1..]);
        AllLabelCharsCons(rest[0], rest[1..]);
        assert rest == [rest[0]] + rest[1..];
      }
    }
  }

  /** When no label after the first is empty, dots are neither doubled nor last. */
  lemma {:induction false} DotsBetweenLabels(d: seq<Byte>)
    requires forall k :: 1 <= k < |Split(d)| ==> Split(d)[k] != []
    ensures d != [] ==> d[|d| - 1] != DOT
    ensures forall i :: 0 <= i < |d| - 1 ==> !(d[i] == DOT && d[i + 1] == DOT)
    ensures Split(d)[0] != [] ==> d != [] && d[0] != DOT
  {
    if d != [] {
      var t, rest, labels := d[1..], Split(d[1..]), Split(d);
      if d[0] == DOT {
        assert forall k :: 0 <= k < |rest| ==> rest[k] == labels[k + 1];
      } else {
        assert forall k :: 1 <= k < |rest| ==> rest[k] == labels[k];
      }
      DotsBetweenLabels(t);
      assert forall i :: 0 <= i < |t| ==> t[i] == d[i + 1];
    }
  }

  /** A name is legal exactly when it is short enough, its labels are host-like and not all are numbers. */
  lemma LegalIffLabels(d: seq<Byte>)
    ensures Legal(d) <==> |d| <= 255 && AllHostlike(Split(d)) && !IpShaped(Split(d))
  {
    CharsOfLabels(d);
    HostlikeIff(Split(d));
    if AllHostlike(Split(d)) {
      HostlikeHasStructure(d);
    }
    if HostChars(d) {
      HostCharsAreNoControls(d);
    }
  }

  lemma HostCharsAreNoControls(d: seq<Byte>)
    requires HostChars(d)
    ensures !HasControl(d)
  {
  }

  lemma HostlikeIff(labels: seq<seq<Byte>>)
    ensures AllHostlike(labels) <==> AllFit(labels) && AllLabelChars(labels)
  {
    if AllHostlike(labels) {
      forall k | 0 <= k < |labels|
        ensures LabelFits(labels[k]) && LabelChars(labels[k])
      {
        assert Hostlike(labels[k]);
      }
    }
  }

  lemma HostlikeHasStructure(d: seq<Byte>)
    requires AllHostlike(Split(d))
    ensures DotsInside(d)
  {
    forall k | 0 <= k < |Split(d)|
      ensures Split(d)[k] != []
    {
      assert Hostlike(Split(d)[k]);
    }
    DotsBetweenLabels(d);
  }

  lemma HostlikeIsDotFree(lab: seq<Byte>)
    requires LabelChars(lab)
    ensures DotFree(lab)
  {
  }

  /** Any host-like labels, not all numbers, make a legal name if they fit. */
  lemma LegalFromLabels(labels: seq<seq<Byte>>)
    requires labels != [] && AllHostlike(labels) && !IpShaped(labels) && |Join(labels)| <= 255
    ensures Legal(Join(labels)) && Split(Join(labels)) == labels
  {
    forall i | 0 <= i < |labels|
      ensures DotFree(labels[i])
    {
      assert Hostlike(labels[i]);
      HostlikeIsDotFree(labels[i]);
    }
    SplitJoin(labels);
    LegalIffLabels(Join(labels));
  }

  // ---------------------------------------------------------------------------------------------
  // Legal names, letter by letter.
  // ---------------------------------------------------------------------------------------------

  predicate Between(c: Byte, low: char, high: char)
  {
    low as int <= c as int <= high as int
  }

  /** A host-like label: 1 to 63 ASCII letters, digits and hyphens, no hyphen at either end. */
  lemma HostlikeMeans(lab: seq<Byte>)
    ensures Hostlike(lab) <==>
      && 1 <= |lab| <= 63 && lab[0] as int != '-' as int && lab[|lab| - 1] as int != '-' as int
      && forall i :: 0 <= i < |lab| ==>
        Between(lab[i], 'a', 'z') || Between(lab[i], 'A', 'Z') || Between(lab[i], '0', '9') || Between(lab[i], '-', '-')
  {
  }

  predicate Decimal(lab: seq<Byte>)
  {
    lab != [] && forall i :: 0 <= i < |lab| ==> Between(lab[i], '0', '9')
  }

  predicate Hexadecimal(lab: seq<Byte>)
  {
    && |lab| >= 2 && Between(lab[0], '0', '0') && (Between(lab[1], 'x', 'x') || Between(lab[1], 'X', 'X'))
    && forall i :: 2 <= i < |lab| ==> Between(lab[i], '0', '9') || Between(lab[i], 'a', 'f') || Between(lab[i], 'A', 'F')
  }

  /** A label reads as a number when it is decimal, or `0x` and hexadecimal digits. */
  lemma IpShapedMeans(lab: seq<Byte>)
    ensures IpShapedLabel(lab) <==> Decimal(lab) || Hexadecimal(lab)
  {
    if |lab| >= 2 {
      assert forall i :: 0 <= i < |lab| - 2 ==> lab[2..][i] == lab[i + 2];
      assert forall i :: 2 <= i < |lab| ==> lab[i] == lab[2..][i - 2];
    }
  }

  /** What a resolver would read as an address is no legal name, in decimal, hexadecimal or a mixture, short or long. */
  lemma NumericNameIsIllegal(labels: seq<seq<Byte>>)
    requires labels != [] && forall i :: 0 <= i < |labels| ==> Decimal(labels[i]) || Hexadecimal(labels[i])
    ensures !Legal(Join(labels))
  {
    forall i | 0 <= i < |labels|
      ensures IpShapedLabel(labels[i]) && DotFree(labels[i])
    {
      IpShapedMeans(labels[i]);
      NumberIsDotFree(labels[i]);
    }
    SplitJoin(labels);
  }

  lemma NumberIsDotFree(lab: seq<Byte>)
    requires Decimal(lab) || Hexadecimal(lab)
    ensures DotFree(lab)
  {
  }
}
