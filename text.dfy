/**
 * String primitives behind the spider's regular expressions and PHP string
 * functions: digit filtering, integer casts of digit strings, trim(), substring
 * search, and the leftmost / rightmost match positions a regex engine settles on.
 */
module Text {
  import opened Wrappers

  predicate IsDigit(c: char) { '0' <= c <= '9' }

  predicate AllDigits(s: string) { forall i :: 0 <= i < |s| ==> IsDigit(s[i]) }

  /** The characters PHP's trim() strips with its default character list. */
  predicate IsTrimmable(c: char) {
    c == ' ' || c == '\t' || c == '\n' || c == '\r' || c == '\0' || c == '\U{B}'
  }

  /** `lit` occurs in `s` starting at index `i`. */
  predicate StartsAt(s: string, i: nat, lit: string) {
    i + |lit| <= |s| && s[i..i + |lit|] == lit
  }

  /**
   * The leftmost index at or after `from` where `p` holds: the start position a
   * left-to-right regex scan settles on, or the end of a lazy `.*?`.
   */
  function FindFirst(p: (string, nat) -> bool, s: string, from: nat): (r: Option<nat>)
    decreases |s| - from
    ensures r.Some? ==> from <= r.value < |s|
  {
    if from >= |s| then None
    else if p(s, from) then Some(from)
    else FindFirst(p, s, from + 1)
  }

  lemma {:induction false} FindFirstSpec(p: (string, nat) -> bool, s: string, from: nat)
    decreases |s| - from
    ensures var r := FindFirst(p, s, from);
            && (r.Some? ==> from <= r.value < |s| && p(s, r.value))
            && (r.Some? ==> forall j :: from <= j < r.value ==> !p(s, j))
            && (r.None? ==> forall j :: from <= j < |s| ==> !p(s, j))
  {
    if from < |s| && !p(s, from) {
      FindFirstSpec(p, s, from + 1);
    }
  }

  /** FindFirst finds `k` exactly when `p` holds at `k` and nowhere between `from` and `k`. */
  lemma FindFirstIs(p: (string, nat) -> bool, s: string, from: nat, k: nat)
    requires from <= k < |s| && p(s, k)
    requires forall j :: from <= j < k ==> !p(s, j)
    ensures FindFirst(p, s, from) == Some(k)
  {
    FindFirstSpec(p, s, from);
  }

  /** The rightmost index below `upto` where `p` holds: where a greedy `^(.*)X` settles. */
  function FindLast(p: (string, nat) -> bool, s: string, upto: nat): (r: Option<nat>)
    ensures r.Some? ==> r.value < upto
  {
    if upto == 0 then None
    else if p(s, upto - 1) then Some(upto - 1)
    else FindLast(p, s, upto - 1)
  }

  lemma {:induction false} FindLastSpec(p: (string, nat) -> bool, s: string, upto: nat)
    ensures var r := FindLast(p, s, upto);
            && (r.Some? ==> r.value < upto && p(s, r.value))
            && (r.Some? ==> forall j :: r.value < j < upto ==> !p(s, j))
            && (r.None? ==> forall j :: 0 <= j < upto ==> !p(s, j))
  {
    if upto > 0 && !p(s, upto - 1) {
      FindLastSpec(p, s, upto - 1);
    }
  }

  /** FindLast finds `k` exactly when `p` holds at `k` and nowhere between `k` and `upto`. */
  lemma FindLastIs(p: (string, nat) -> bool, s: string, upto: nat, k: nat)
    requires k < upto && p(s, k)
    requires forall j :: k < j < upto ==> !p(s, j)
    ensures FindLast(p, s, upto) == Some(k)
  {
    FindLastSpec(p, s, upto);
  }

  /** `strpos($s, $lit) !== false`, for the non-empty needles the spider uses. */
  predicate Contains(s: string, lit: string) {
    FindFirst(Occurs(lit), s, 0).Some?
  }

  /** The probe "`lit` starts here". */
  function Occurs(lit: string): (string, nat) -> bool {
    (t: string, i: nat) => StartsAt(t, i, lit)
  }

  lemma ContainsIff(s: string, lit: string)
    requires |lit| > 0
    ensures Contains(s, lit) <==> exists i :: 0 <= i < |s| && StartsAt(s, i, lit)
  {
    var p := Occurs(lit);
    FindFirstSpec(p, s, 0);
    if exists i :: 0 <= i < |s| && StartsAt(s, i, lit) {
      var i :| 0 <= i < |s| && StartsAt(s, i, lit);
      assert p(s, i);
    }
  }

  /** `preg_replace('#[^0-9]#', '', $s)`: the digit characters of `s`, in order. */
  function Digits(s: string): (r: string)
    ensures |r| <= |s|
    ensures AllDigits(r)
    ensures r == [] <==> forall i :: 0 <= i < |s| ==> !IsDigit(s[i])
  {
    if s == [] then []
    else
      var rest := Digits(s[1..]);
      assert forall i :: 1 <= i < |s| ==> s[i] == s[1..][i - 1];
      if IsDigit(s[0]) then [s[0]] + rest else rest
  }

  /** Keeping the digits of a concatenation keeps the digits of each part, in order. */
  lemma {:induction false} DigitsAppend(a: string, b: string)
    ensures Digits(a + b) == Digits(a) + Digits(b)
  {
    if a == [] {
      assert a + b == b;
    } else {
      assert (a + b)[0] == a[0];
      assert (a + b)[1..] == a[1..] + b;
      DigitsAppend(a[1..], b);
    }
  }

  /** One more character adds itself to the digits exactly when it is a digit. */
  lemma DigitsSnoc(a: string, c: char)
    ensures Digits(a + [c]) == Digits(a) + (if IsDigit(c) then [c] else [])
  {
    DigitsAppend(a, [c]);
  }

  /** The value of one decimal digit. */
  function DigitValue(c: char): int {
    c as int - '0' as int
  }

  function Pow10(k: nat): (r: nat)
    ensures r >= 1
  {
    if k == 0 then 1 else 10 * Pow10(k - 1)
  }

  /** The integer a string of decimal digits denotes, as PHP's `(int)` reads it ("" is 0, leading zeros ignored). */
  function DecimalValue(ds: string): (v: nat)
    requires AllDigits(ds)
    ensures v < Pow10(|ds|)
  {
    if ds == [] then 0
    else
      var init := DecimalValue(ds[..|ds| - 1]);
      var d := DigitValue(ds[|ds| - 1]);
      assert 10 * init + d < 10 * Pow10(|ds| - 1);
      10 * init + d
  }

  /** Number of trimmable characters at the front of `s`. */
  function LeadingTrim(s: string): (k: nat)
    ensures k <= |s|
  {
    if s == [] || !IsTrimmable(s[0]) then 0 else 1 + LeadingTrim(s[1..])
  }

  lemma {:induction false} LeadingTrimSpec(s: string)
    ensures forall i :: 0 <= i < LeadingTrim(s) ==> IsTrimmable(s[i])
    ensures LeadingTrim(s) < |s| ==> !IsTrimmable(s[LeadingTrim(s)])
  {
    if s != [] && IsTrimmable(s[0]) {
      LeadingTrimSpec(s[1..]);
    }
  }

  /** Length of `s` without the trimmable characters at its end. */
  function TrailingTrim(s: string): (k: nat)
    ensures k <= |s|
  {
    if s == [] || !IsTrimmable(s[|s| - 1]) then |s| else TrailingTrim(s[..|s| - 1])
  }

  lemma {:induction false} TrailingTrimSpec(s: string)
    ensures forall i :: TrailingTrim(s) <= i < |s| ==> IsTrimmable(s[i])
    ensures TrailingTrim(s) > 0 ==> !IsTrimmable(s[TrailingTrim(s) - 1])
  {
    if s != [] && IsTrimmable(s[|s| - 1]) {
      TrailingTrimSpec(s[..|s| - 1]);
    }
  }

  /** PHP's trim(): `s` without its leading and trailing whitespace and NUL characters. */
  function Trim(s: string): string {
    var t := s[LeadingTrim(s)..];
    t[..TrailingTrim(t)]
  }

  /**
   * trim() returns the slice of `s` left after removing trimmable characters
   * from both ends, and neither end of the result is trimmable.
   */
  lemma TrimSpec(s: string)
    ensures Trim(s) == [] || (!IsTrimmable(Trim(s)[0]) && !IsTrimmable(Trim(s)[|Trim(s)| - 1]))
    ensures exists a, b :: 0 <= a <= b <= |s| && Trim(s) == s[a..b]
                           && (forall i :: 0 <= i < a ==> IsTrimmable(s[i]))
                           && (forall i :: b <= i < |s| ==> IsTrimmable(s[i]))
  {
    var a := LeadingTrim(s);
    var t := s[a..];
    var b := a + TrailingTrim(t);
    LeadingTrimSpec(s);
    TrailingTrimSpec(t);
    assert Trim(s) == s[a..b];
    forall i | b <= i < |s| ensures IsTrimmable(s[i]) {
      assert s[i] == t[i - a];
    }
    if Trim(s) != [] {
      assert Trim(s)[0] == t[0];
      assert Trim(s)[|Trim(s)| - 1] == t[TrailingTrim(t) - 1];
    }
  }

  /** trim() leaves a string alone exactly when neither end is trimmable. */
  lemma TrimIdentity(s: string)
    ensures Trim(s) == s <==> (s == [] || (!IsTrimmable(s[0]) && !IsTrimmable(s[|s| - 1])))
  {
    TrimSpec(s);
    if s != [] && !IsTrimmable(s[0]) && !IsTrimmable(s[|s| - 1]) {
      assert LeadingTrim(s) == 0;
      assert s[0..] == s;
      assert TrailingTrim(s) == |s|;
    }
  }

  predicate IsQuoteAt(s: string, i: nat) { i < |s| && s[i] == '"' }

  /** The text of a capture `stem[^"]+` directly followed by a closing quote. */
  predicate QuotedMatch(s: string, i: nat, lead: string, stem: string, c: string) {
    && StartsAt(s, i, lead + c + "\"")
    && stem <= c && |c| > |stem|
    && forall k :: |stem| <= k < |c| ==> c[k] != '"'
  }

  lemma QuotedMatchStarts(s: string, i: nat, lead: string, stem: string, c: string)
    requires QuotedMatch(s, i, lead, stem, c)
    ensures StartsAt(s, i, lead + stem)
  {
    assert s[i..i + |lead + stem|] == (lead + c + "\"")[..|lead + stem|];
  }

  /** The capture group of the pattern `lead(stem[^"]+)"` when it matches at index `i` of `s`. */
  function QuotedAt(s: string, i: nat, lead: string, stem: string): Option<string>
  {
    var j := i + |lead| + |stem|;
    if !StartsAt(s, i, lead + stem) then None
    else
      match FindFirst(IsQuoteAt, s, j)
      case None => None
      case Some(q) => if q == j then None else Some(stem + s[j..q])
  }

  /** What `QuotedAt` reports is a match at `i`. */
  lemma QuotedAtSound(s: string, i: nat, lead: string, stem: string)
    requires QuotedAt(s, i, lead, stem).Some?
    ensures QuotedMatch(s, i, lead, stem, QuotedAt(s, i, lead, stem).value)
  {
    var j := i + |lead| + |stem|;
    FindFirstSpec(IsQuoteAt, s, j);
    var q := FindFirst(IsQuoteAt, s, j).value;
    var c := stem + s[j..q];
    assert forall k :: |stem| <= k < |c| ==> c[k] != '"' by {
      forall k | |stem| <= k < |c| ensures c[k] != '"' {
        assert c[k] == s[j + k - |stem|];
        assert !IsQuoteAt(s, j + k - |stem|);
      }
    }
    assert s[i..i + |lead + stem|] == lead + stem;
    assert s[i..i + |lead + c + "\""|] == lead + c + "\"" by {
      forall k | 0 <= k < |lead + c + "\""|
        ensures s[i..i + |lead + c + "\""|][k] == (lead + c + "\"")[k]
      {
        if k < |lead + stem| {
          assert s[i + k] == s[i..i + |lead + stem|][k];
        }
      }
    }
  }

  /** A match at index `i` is always found there: `QuotedAt` misses no capture and reports the only one. */
  lemma QuotedAtComplete(s: string, i: nat, lead: string, stem: string, c: string)
    requires QuotedMatch(s, i, lead, stem, c)
    ensures QuotedAt(s, i, lead, stem) == Some(c)
  {
    QuotedMatchStarts(s, i, lead, stem, c);
    var j := i + |lead| + |stem|;
    var q := i + |lead| + |c|;
    var w := lead + c + "\"";
    assert s[i..i + |w|] == w;
    assert s[q] == s[i..i + |w|][q - i];
    assert IsQuoteAt(s, q);
    forall k | j <= k < q ensures !IsQuoteAt(s, k) {
      assert s[k] == s[i..i + |w|][k - i];
      assert s[k] == c[k - i - |lead|];
    }
    FindFirstIs(IsQuoteAt, s, j, q);
    assert c == stem + s[j..q] by {
      forall k | 0 <= k < |c| ensures c[k] == (stem + s[j..q])[k] {
        assert s[i + |lead| + k] == s[i..i + |w|][|lead| + k];
      }
    }
  }

  /**
   * The first capture of `lead(stem[^"]+)"` in `s`, as `preg_match` reports it:
   * the pattern is tried at every start index from the left.
   */
  function CaptureQuoted(s: string, lead: string, stem: string): Option<string>
  {
    match FindFirst(QuotedProbe(lead, stem), s, 0)
    case Some(i) => QuotedAt(s, i, lead, stem)
    case None => None
  }

  /** The probe "the quoted pattern matches here". */
  function QuotedProbe(lead: string, stem: string): (string, nat) -> bool {
    (t: string, i: nat) => QuotedAt(t, i, lead, stem).Some?
  }

  /**
   * A capture is found exactly when the pattern matches somewhere, and it is
   * the capture at the leftmost such index.
   */
  lemma CaptureQuotedSpec(s: string, lead: string, stem: string)
    ensures CaptureQuoted(s, lead, stem).Some? <==> exists i :: 0 <= i < |s| && QuotedAt(s, i, lead, stem).Some?
    ensures CaptureQuoted(s, lead, stem).Some? ==>
              exists i :: 0 <= i < |s| && QuotedMatch(s, i, lead, stem, CaptureQuoted(s, lead, stem).value)
                && forall j :: 0 <= j < i ==> QuotedAt(s, j, lead, stem).None?
  {
    var p := QuotedProbe(lead, stem);
    FindFirstSpec(p, s, 0);
    match FindFirst(p, s, 0)
    case Some(i) =>
      QuotedAtSound(s, i, lead, stem);
      assert CaptureQuoted(s, lead, stem) == QuotedAt(s, i, lead, stem);
      forall j | 0 <= j < i ensures QuotedAt(s, j, lead, stem).None? {
        assert !p(s, j);
      }
      assert QuotedMatch(s, i, lead, stem, CaptureQuoted(s, lead, stem).value);
    case None =>
      forall i | 0 <= i < |s| ensures QuotedAt(s, i, lead, stem).None? {
        assert !p(s, i);
      }
  }
}
