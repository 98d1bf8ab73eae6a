/** The few string operations of the Go standard library that the bridge relies on.
    Letters outside ASCII are left as they are. */
module Text {
  import opened Options

  predicate IsCapital(c: char) {
    'A' <= c <= 'Z'
  }

  function LowerChar(c: char): char {
    if IsCapital(c) then c - 'A' + 'a' else c
  }

  /** strings.ToLower: a capital becomes the small letter, 32 places behind it, and nothing else changes. */
  function Lower(s: string): (r: string)
    ensures |r| == |s|
    ensures forall i :: 0 <= i < |s| ==> r[i] as int == s[i] as int + if IsCapital(s[i]) then 32 else 0
    ensures forall c | c in r :: !IsCapital(c)
  {
    seq(|s|, i requires 0 <= i < |s| => LowerChar(s[i]))
  }

  lemma LowerStays(s: string)
    requires forall c | c in s :: !IsCapital(c)
    ensures Lower(s) == s
  {
    assert forall i | 0 <= i < |s| :: s[i] in s;
  }

  lemma LowerTwice(s: string)
    ensures Lower(Lower(s)) == Lower(s)
  {
    LowerStays(Lower(s));
  }

  /** The same text, or the same but for which letters are capitals. */
  predicate SameButForCase(s: string, t: string) {
    |s| == |t| && forall i | 0 <= i < |s| :: SameLetter(s[i], t[i])
  }

  predicate SameLetter(c: char, d: char) {
    || c == d
    || ('A' <= c <= 'Z' && d as int == c as int + 32)
    || ('A' <= d <= 'Z' && c as int == d as int + 32)
  }

  lemma LowerForgetsCase(s: string, t: string)
    ensures Lower(s) == Lower(t) <==> SameButForCase(s, t)
  {
    if Lower(s) == Lower(t) {
      forall i | 0 <= i < |s| ensures SameLetter(s[i], t[i]) {
        assert Lower(s)[i] == Lower(t)[i];
      }
    }
    if SameButForCase(s, t) {
      forall i | 0 <= i < |s| ensures Lower(s)[i] == Lower(t)[i] {
        assert SameLetter(s[i], t[i]);
      }
    }
  }

  predicate IsDigit(c: char) {
    '0' <= c <= '9'
  }

  predicate AllDigits(s: string) {
    forall c | c in s :: IsDigit(c)
  }

  function DecimalValue(s: string): (n: nat)
    requires AllDigits(s)
  {
    if s == [] then 0
    else
      var last := s[|s| - 1];
      assert last in s;
      10 * DecimalValue(s[..|s| - 1]) + (last as int - '0' as int)
  }

  function Digits(n: nat): (s: string)
    ensures s != []
    ensures forall c | c in s :: IsDigit(c)
  {
    (if n < 10 then [] else Digits(n / 10)) + [(n % 10) as char + '0']
  }

  /** strconv.Itoa. */
  function Itoa(n: int): string {
    if n < 0 then "-" + Digits(-n) else Digits(n)
  }

  lemma {:induction false} DigitsValue(n: nat)
    ensures DecimalValue(Digits(n)) == n
  {
    if n >= 10 {
      DigitsValue(n / 10);
      assert Digits(n)[..|Digits(n)| - 1] == Digits(n / 10);
    }
  }

  /** Whether strconv.ParseInt(s, 10, 64) succeeds: an optional sign, at least one digit, in range. */
  predicate IsInt64(s: string) {
    var negative := s != [] && s[0] == '-';
    var digits := if s != [] && (s[0] == '-' || s[0] == '+') then s[1..] else s;
    && digits != []
    && AllDigits(digits)
    && DecimalValue(digits) < (if negative then 0x8000_0000_0000_0001 else 0x8000_0000_0000_0000)
  }

  /** A number written in decimal is accepted exactly when it fits into 64 bits. */
  lemma {:induction false} WrittenIsInt64Exactly(n: int)
    ensures IsInt64(Itoa(n)) <==> -0x8000_0000_0000_0000 <= n < 0x8000_0000_0000_0000
  {
    var digits := Digits(if n < 0 then -n else n);
    DigitsValue(if n < 0 then -n else n);
    assert digits[0] in digits;
    assert ("-" + digits)[1..] == digits;
  }

  /** A text is accepted exactly when it is digits, at least one, with or without a sign, and the number that
      they write fits into 64 bits. */
  lemma IsInt64Exactly(s: string, digits: string)
    requires AllDigits(digits)
    ensures IsInt64(digits) <==> digits != [] && DecimalValue(digits) < 0x8000_0000_0000_0000
    ensures IsInt64("+" + digits) <==> digits != [] && DecimalValue(digits) < 0x8000_0000_0000_0000
    ensures IsInt64("-" + digits) <==> digits != [] && DecimalValue(digits) <= 0x8000_0000_0000_0000
    ensures IsInt64(s) ==> s != [] && (AllDigits(s) || ((s[0] == '-' || s[0] == '+') && AllDigits(s[1..])))
  {
    assert ("+" + digits)[1..] == digits && ("-" + digits)[1..] == digits;
    assert digits != [] ==> digits[0] in digits;
  }

  /** The number that digits write does not depend on zeros before them. */
  lemma {:induction false} LeadingZero(digits: string)
    requires AllDigits(digits)
    ensures AllDigits("0" + digits) && DecimalValue("0" + digits) == DecimalValue(digits)
  {
    var s := "0" + digits;
    assert forall c | c in s :: c == '0' || c in digits;
    if digits == [] {
      assert s[..0] == [];
    } else {
      var n := |digits| - 1;
      assert digits[n] in digits;
      assert AllDigits(digits[..n]);
      LeadingZero(digits[..n]);
      assert s[..|s| - 1] == "0" + digits[..n];
    }
  }

  lemma Int64IsLower(s: string)
    requires IsInt64(s)
    ensures Lower(s) == s
  {
    forall i | 0 <= i < |s| ensures !IsCapital(s[i]) {
      var digits := if s[0] == '-' || s[0] == '+' then s[1..] else s;
      assert s[i] in digits || i == 0;
    }
    LowerStays(s);
  }

  /** strings.Split(s, "/"): the pieces between the slashes, never an empty list. */
  function SplitPath(s: string): (pieces: seq<string>)
    ensures |pieces| >= 1
  {
    if s == [] then [""]
    else
      var rest := SplitPath(s[1..]);
      if s[0] == '/' then [""] + rest else [[s[0]] + rest[0]] + rest[1..]
  }

  function JoinPath(pieces: seq<string>): string {
    if pieces == [] then "" else if |pieces| == 1 then pieces[0] else pieces[0] + "/" + JoinPath(pieces[1..])
  }

  /** The pieces hold no slash, and joined by slashes they are the text again. */
  lemma {:induction false} SplitPathExactly(s: string)
    ensures JoinPath(SplitPath(s)) == s
    ensures forall piece | piece in SplitPath(s) :: '/' !in piece
  {
    if s != [] {
      SplitPathExactly(s[1..]);
      var rest := SplitPath(s[1..]);
      assert rest[0] in rest;
      if s[0] == '/' {
        assert SplitPath(s)[1..] == rest;
        assert s == "/" + s[1..];
      } else {
        assert SplitPath(s)[1..] == rest[1..];
        assert s == [s[0]] + s[1..];
      }
    }
  }

  /** strings.LastIndexByte. */
  function LastIndexOf(s: string, c: char): (r: Option<nat>)
    ensures r.None? ==> c !in s
    ensures r.Some? ==> r.value < |s| && s[r.value] == c && c !in s[r.value + 1..]
  {
    if s == [] then None
    else
      var n := |s| - 1;
      if s[n] == c then Some(n) else LastIndexOf(s[..n], c)
  }

  predicate HasSuffix(s: string, suffix: string) {
    |suffix| <= |s| && s[|s| - |suffix|..] == suffix
  }
}
