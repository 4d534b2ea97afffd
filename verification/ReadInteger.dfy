/** The overflow-checked reader of 64-bit integers. */
module ReadInteger {
  import opened Base

  const INT64_MAX := 0x7fff_ffff_ffff_ffff
  const INT64_MIN := -0x8000_0000_0000_0000
  const UINT64_MAX := 0xffff_ffff_ffff_ffff

  predicate IsSpace(c: char) {
    c == ' ' || '\t' <= c <= '\r'
  }

  predicate IsDigit(c: char) {
    '0' <= c <= '9'
  }

  function DigitOf(c: char): nat
    requires IsDigit(c)
  {
    c as int - '0' as int
  }

  predicate AllDigits(s: seq<char>) {
    forall i | 0 <= i < |s| :: IsDigit(s[i])
  }

  function NatValue(s: seq<char>): nat
    requires AllDigits(s)
  {
    if s == [] then 0 else NatValue(s[..|s| - 1]) * 10 + DigitOf(s[|s| - 1])
  }

  /** The input without leading white space. */
  function Trimmed(s: seq<char>): (r: seq<char>)
    ensures r != [] ==> !IsSpace(r[0])
  {
    if s != [] && IsSpace(s[0]) then Trimmed(s[1..]) else s
  }

  /** The characters up to the next white space. */
  function Token(s: seq<char>): (t: seq<char>)
    ensures |t| <= |s| && t == s[..|t|] && (|t| < |s| ==> IsSpace(s[|t|])) && forall i | 0 <= i < |t| :: !IsSpace(t[i])
  {
    if s == [] || IsSpace(s[0]) then [] else [s[0]] + Token(s[1..])
  }

  predicate IsSign(c: char) {
    c == '-' || c == '+'
  }

  /** The digits of a token: what follows its sign, if it has one. */
  function Digits(t: seq<char>): seq<char> {
    if t != [] && IsSign(t[0]) then t[1..] else t
  }

  /** An optionally signed decimal number. */
  predicate Numeral(t: seq<char>) {
    Digits(t) != [] && AllDigits(Digits(t))
  }

  function NumeralValue(t: seq<char>): int
    requires Numeral(t)
  {
    if t[0] == '-' then -(NatValue(Digits(t)) as int) else NatValue(Digits(t))
  }

  /** The 64-bit integer a token stands for, if it does. */
  function Int64(t: seq<char>): Option<int> {
    if Numeral(t) && INT64_MIN <= NumeralValue(t) <= INT64_MAX then Some(NumeralValue(t)) else None
  }

  // ----- the reader -----

  /** `getchar`: None is the end of the input. */
  function CharAt(s: seq<char>, i: nat): Option<char> {
    if i < |s| then Some(s[i]) else None
  }

  predicate DigitAt(s: seq<char>, i: nat) {
    i < |s| && IsDigit(s[i])
  }

  /** More digits never make a number smaller. */
  lemma {:induction false} NatValueGrows(s: seq<char>, k: nat)
    requires AllDigits(s) && k <= |s|
    ensures NatValue(s[..k]) <= NatValue(s)
    decreases |s| - k
  {
    if k < |s| {
      assert s[..k + 1][..k] == s[..k];
      NatValueGrows(s, k + 1);
    } else {
      assert s[..k] == s;
    }
  }

  /** The digit loop of `read_integer`, from the first digit on: None when the limit would be passed. */
  method ReadDigits(s: seq<char>, start: nat, limit: nat) returns (magnitude: Option<nat>, end: nat)
    requires DigitAt(s, start) && 9 <= limit <= INT64_MAX + 1
    ensures start < end <= |s| && AllDigits(s[start..end])
    ensures magnitude.Some? ==> !DigitAt(s, end) && magnitude.value == NatValue(s[start..end]) <= limit
    ensures magnitude.None? ==> NatValue(s[start..end]) > limit
    ensures magnitude.None? ==> AllDigits(s[start..end - 1]) && NatValue(s[start..end - 1]) <= limit
  {
    var m: nat := 0;
    end := start;
    while DigitAt(s, end)
      invariant start <= end <= |s| && AllDigits(s[start..end])
      invariant m == NatValue(s[start..end]) <= limit
      decreases |s| - end
    {
      var digit := DigitOf(s[end]);
      ghost var before := s[start..end];
      end := end + 1;
      assert s[start..end] == before + [s[end - 1]];
      assert s[start..end][..|before|] == before;
      if m > (limit - digit) / 10 { return None, end; }
      assert m * 10 + digit <= UINT64_MAX;
      m := m * 10 + digit;
    }
    magnitude := Some(m);
  }

  method SkipSpaces(s: seq<char>) returns (i: nat)
    ensures i <= |s| && StartsAt(s, i) && s[i..] == Trimmed(s)
  {
    i := 0;
    assert s[0..] == s;
    while i < |s| && IsSpace(s[i])
      invariant i <= |s| && Trimmed(s[i..]) == Trimmed(s) && forall j | 0 <= j < i :: IsSpace(s[j])
    {
      assert s[i..][1..] == s[i + 1..];
      i := i + 1;
    }
  }

  /** How long the sign of a token is. */
  function SignLength(s: seq<char>): nat {
    if s != [] && IsSign(s[0]) then 1 else 0
  }

  /** A token reaches as far as the first white space. */
  lemma TokenReaches(s: seq<char>, n: nat)
    requires n <= |s| && forall i | 0 <= i < n :: !IsSpace(s[i])
    ensures n <= |Token(s)| && Token(s)[..n] == s[..n]
    ensures n == |s| || IsSpace(s[n]) ==> Token(s) == s[..n]
  {
  }

  lemma NoDigit(s: seq<char>)
    requires !DigitAt(s, SignLength(s))
    ensures Int64(Token(s)) == None
  {
    var t := Token(s);
    if Digits(t) != [] {
      assert Digits(t)[0] == s[SignLength(s)];
      assert !IsDigit(Digits(t)[0]);
    }
  }

  lemma SliceOfSuffix(s: seq<char>, from: nat, k: nat, n: nat)
    requires k <= n && from + n <= |s|
    ensures s[from..][k..n] == s[from + k..from + n]
  {
  }

  lemma SliceDigits(s: seq<char>, k: nat, end: nat)
    requires k <= end <= |s| && AllDigits(s[k..end])
    ensures forall i | k <= i < end :: IsDigit(s[i])
  {
    forall i | k <= i < end ensures IsDigit(s[i]) { assert s[k..end][i - k] == s[i]; }
  }

  /** Digits after the sign are digits of the token. */
  lemma DigitsReach(s: seq<char>, end: nat)
    requires SignLength(s) < end <= |s| && AllDigits(s[SignLength(s)..end])
    ensures 0 < end <= |Token(s)| && Token(s)[0] == s[0] && Digits(Token(s)) == Token(s)[SignLength(s)..]
    ensures Digits(Token(s))[..end - SignLength(s)] == s[SignLength(s)..end]
    ensures (end == |s| || IsSpace(s[end])) ==> Digits(Token(s)) == s[SignLength(s)..end] && |Token(s)| == end
    ensures !DigitAt(s, end) && end < |s| && !IsSpace(s[end]) ==> !Numeral(Token(s))
  {
    hide Token;
    var k := SignLength(s);
    SliceDigits(s, k, end);
    assert forall i | 0 <= i < end :: !IsSpace(s[i]);
    TokenReaches(s, end);
    var t := Token(s);
    assert t[..end] == s[..end];
    assert t[0] == s[0] by { assert t[..end][0] == s[..end][0]; }
    assert Digits(t) == t[k..];
    assert t[k..][..end - k] == t[..end][k..];
    if !DigitAt(s, end) && end < |s| && !IsSpace(s[end]) {
      TokenReaches(s, end + 1);
      assert t[..end + 1][end] == s[..end + 1][end];
      assert Digits(t)[end - k] == s[end];
    }
  }

  // ----- how far the reader goes -----

  /** More input can still make the reader accept. */
  ghost predicate Viable(p: seq<char>) {
    exists t :: Accepts(p, t)
  }

  ghost predicate Accepts(p: seq<char>, t: seq<char>) {
    Int64(Token(Trimmed(p + t))).Some?
  }

  /** `consumed` characters of a rejected input: all of it, or up to the first character that settles the matter. */
  ghost predicate StopsInTime(s: seq<char>, consumed: nat) {
    && consumed <= |s|
    && (consumed > 0 ==> Viable(s[..consumed - 1]))
    && (consumed < |s| ==> !Viable(s[..consumed]))
  }

  lemma {:induction false} TrimmedSpaces(p: seq<char>, from: nat, t: seq<char>)
    requires from <= |p| && forall i | 0 <= i < from :: IsSpace(p[i])
    requires from < |p| ==> !IsSpace(p[from])
    requires from == |p| ==> t != [] && !IsSpace(t[0])
    ensures Trimmed(p + t) == p[from..] + t
    decreases from
  {
    var s := p + t;
    if from > 0 {
      TrimmedSpaces(p[1..], from - 1, t);
      assert s[1..] == p[1..] + t;
    } else {
      assert p[0..] == p && !IsSpace(s[0]);
    }
  }

  /** White space, then a sign or not, then digits or none whose value is within the limit. */
  lemma SoFarGood(p: seq<char>, from: nat, limit: nat)
    requires from <= |p| && forall i | 0 <= i < from :: IsSpace(p[i])
    requires
      var r := p[from..];
      SignLength(r) <= |r| && AllDigits(r[SignLength(r)..]) && NatValue(r[SignLength(r)..]) <= limit
    requires limit == if from < |p| && p[from] == '-' then INT64_MAX + 1 else INT64_MAX
    ensures Viable(p)
  {
    var r := p[from..];
    var k := SignLength(r);
    var t := if |r| > k then "" else "0";
    var n := r + t;
    if from < |p| { assert p[from] == r[0]; }
    if |r| > k { assert n == r; } else { assert r == r[..k] && n[k..] == "0" && "0"[..0] == [] && NatValue("0") == 0; }
    assert SignLength(n) == k && Digits(n) == n[k..];
    assert AllDigits(n[k..]) && Numeral(n);
    TrimmedSpaces(p, from, t);
    NoSpaces(n, k);
    TokenReaches(n, |n|);
    assert Accepts(p, t);
  }

  lemma NoSpaces(n: seq<char>, k: nat)
    requires k == SignLength(n) && k <= |n| && AllDigits(n[k..])
    ensures forall i | 0 <= i < |n| :: !IsSpace(n[i])
  {
    forall i | 0 <= i < |n| ensures !IsSpace(n[i]) {
      if i >= k { assert IsDigit(n[k..][i - k]); }
    }
  }

  /** Nothing can follow to make the token an integer. */
  ghost predicate Hopeless(r: seq<char>) {
    forall t :: Int64(Token(r + t)) == None
  }

  lemma HopelessStops(s: seq<char>, from: nat, consumed: nat, limit: nat)
    requires from < consumed <= |s| && (forall i | 0 <= i < from :: IsSpace(s[i])) && !IsSpace(s[from])
    requires Hopeless(s[from..consumed])
    requires
      var r := s[from..consumed - 1];
      SignLength(r) <= |r| && AllDigits(r[SignLength(r)..]) && NatValue(r[SignLength(r)..]) <= limit
    requires limit == if from < consumed - 1 && s[from] == '-' then INT64_MAX + 1 else INT64_MAX
    ensures StopsInTime(s, consumed)
  {
    hide NatValue, Int64, Token;
    var p := s[..consumed - 1];
    assert p[from..] == s[from..consumed - 1];
    SoFarGood(p, from, limit);
    forall t ensures !Accepts(s[..consumed], t) {
      TrimmedSpaces(s[..consumed], from, t);
      assert s[..consumed][from..] == s[from..consumed];
    }
  }

  lemma NoDigitHopeless(r: seq<char>)
    requires r != [] && SignLength(r) == |r| - 1 && !IsDigit(r[|r| - 1])
    requires |r| == 1 ==> !IsSign(r[0])
    ensures Hopeless(r)
  {
    forall t ensures Int64(Token(r + t)) == None { NoDigit(r + t); }
  }

  /** Behind the white space at the start of the input. */
  predicate StartsAt(s: seq<char>, from: nat) {
    from <= |s| && (forall i | 0 <= i < from :: IsSpace(s[i])) && (from < |s| ==> !IsSpace(s[from]))
  }

  lemma StopsAtNoDigit(s: seq<char>, from: nat, i: nat)
    requires StartsAt(s, from) && i == from + SignLength(s[from..]) && !DigitAt(s, i)
    ensures StopsInTime(s, if i < |s| then i + 1 else i)
  {
    if i < |s| {
      var r := s[from..i + 1];
      assert r[0] == s[from] == s[from..][0] && r[|r| - 1] == s[i];
      NoDigitHopeless(r);
      var r' := s[from..i];
      assert i > from ==> r' == [s[from]];
      assert SignLength(r') == i - from && r'[SignLength(r')..] == [];
      HopelessStops(s, from, i + 1, if from < i && s[from] == '-' then INT64_MAX + 1 else INT64_MAX);
    } else if s != [] {
      var p := s[..|s| - 1];
      assert p[|p|..] == [];
      SoFarGood(p, |p|, INT64_MAX);
    }
  }

  /** The sign of the rest is the sign of any part of it that has digits as well. */
  lemma SignOfPart(s: seq<char>, from: nat, end: nat)
    requires from < end <= |s|
    ensures SignLength(s[from..end]) == SignLength(s[from..])
    ensures from + SignLength(s[from..]) <= end
    ensures s[from..end][SignLength(s[from..])..] == s[from + SignLength(s[from..])..end]
  {
  }

  lemma StopsTooLarge(s: seq<char>, from: nat, end: nat, limit: nat)
    requires StartsAt(s, from)
    requires var start := from + SignLength(s[from..]);
             && start < end <= |s| && AllDigits(s[start..end]) && NatValue(s[start..end]) > limit
             && AllDigits(s[start..end - 1]) && NatValue(s[start..end - 1]) <= limit
    requires limit == if s[from] == '-' then INT64_MAX + 1 else INT64_MAX
    ensures StopsInTime(s, end)
  {
    hide NatValue, Int64, Token;
    var r := s[from..end];
    SignOfPart(s, from, end);
    forall t ensures Int64(Token(r + t)) == None {
      var k := SignLength(r);
      assert (r + t)[k..|r|] == r[k..] && SignLength(r + t) == k;
      TooLarge(r + t, |r|, limit);
    }
    if from < end - 1 { SignOfPart(s, from, end - 1); } else { assert s[from..end - 1] == [] == s[from..end - 1][0..]; }
    HopelessStops(s, from, end, if from < end - 1 && s[from] == '-' then INT64_MAX + 1 else INT64_MAX);
  }

  lemma PrefixOfSlice(s: seq<char>, from: nat, end: nat, t: seq<char>)
    requires from <= end < |s|
    ensures (s[from..end + 1] + t)[..end - from] == s[from..end]
  {
  }

  lemma StopsAtOther(s: seq<char>, from: nat, end: nat, limit: nat)
    requires StartsAt(s, from)
    requires var start := from + SignLength(s[from..]);
             && start < end < |s| && AllDigits(s[start..end]) && NatValue(s[start..end]) <= limit
    requires !DigitAt(s, end) && !IsSpace(s[end])
    requires limit == if s[from] == '-' then INT64_MAX + 1 else INT64_MAX
    ensures StopsInTime(s, end + 1)
  {
    hide NatValue, Token;
    var r, n := s[from..end + 1], end - from;
    SignOfPart(s, from, end);
    SignOfPart(s, from, end + 1);
    forall t ensures Int64(Token(r + t)) == None {
      var k := SignLength(r);
      PrefixOfSlice(s, from, end, t);
      assert (r + t)[k..n] == (r + t)[..n][k..] && SignLength(r + t) == k;
      assert (r + t)[n] == s[end];
      DigitsReach(r + t, n);
    }
    HopelessStops(s, from, end + 1, limit);
  }

  /** `read_integer`: exactly the tokens that are 64-bit integers are accepted, with their value. Accepted input is
      consumed up to one character behind the token, rejected input up to the first character after which nothing could
      have been accepted any more. */
  method Read(s: seq<char>) returns (value: Option<int>, consumed: nat)
    ensures value == Int64(Token(Trimmed(s)))
    ensures value.Some? ==> (
      var left := |Trimmed(s)| - |Token(Trimmed(s))|;
      consumed == |s| - left + if left > 0 then 1 else 0)
    ensures value.None? ==> StopsInTime(s, consumed)
  {
    hide Token, Trimmed, NatValue, Int64, StopsInTime, StartsAt;
    var i := SkipSpaces(s);
    ghost var rest, from := s[i..], i;
    var negative := CharAt(s, i) == Some('-');
    if CharAt(s, i) == Some('-') || CharAt(s, i) == Some('+') {
      i := i + 1;
    }
    assert i == from + SignLength(rest);
    if !DigitAt(s, i) {
      NoDigit(rest);
      consumed := if i < |s| then i + 1 else i;
      StopsAtNoDigit(s, from, i);
      return None, consumed;
    }
    var limit := if negative then INT64_MAX + 1 else INT64_MAX;
    var magnitude, end := ReadDigits(s, i, limit);
    ghost var k, n := SignLength(rest), end - from;
    SliceOfSuffix(s, from, k, n);
    DigitsReach(rest, n);
    if magnitude.None? {
      TooLarge(rest, n, limit);
      StopsTooLarge(s, from, end, limit);
      return None, end;
    }
    if end < |s| && !IsSpace(s[end]) {
      NotNumeral(Token(rest));
      StopsAtOther(s, from, end, limit);
      return None, end + 1;
    }
    Accepted(rest, n, magnitude.value);
    if negative && magnitude.value == INT64_MAX + 1 {
      value := Some(INT64_MIN);
    } else {
      value := Some(if negative then -(magnitude.value as int) else magnitude.value);
    }
    consumed := if end < |s| then end + 1 else end;
  }

  lemma NotNumeral(t: seq<char>)
    requires !Numeral(t)
    ensures Int64(t) == None
  {
  }

  lemma Accepted(s: seq<char>, end: nat, m: nat)
    requires SignLength(s) < end <= |s| && (end == |s| || IsSpace(s[end]))
    requires AllDigits(s[SignLength(s)..end]) && m == NatValue(s[SignLength(s)..end])
    requires m <= if s[0] == '-' then INT64_MAX + 1 else INT64_MAX
    ensures Int64(Token(s)) == Some(if s[0] == '-' then -(m as int) else m)
  {
    hide Token, NatValue;
    DigitsReach(s, end);
  }

  lemma TooLarge(s: seq<char>, end: nat, limit: nat)
    requires SignLength(s) < end <= |s| && AllDigits(s[SignLength(s)..end])
    requires NatValue(s[SignLength(s)..end]) > limit
    requires limit == if s[0] == '-' then INT64_MAX + 1 else INT64_MAX
    ensures Int64(Token(s)) == None
  {
    hide Token, NatValue;
    DigitsReach(s, end);
    var t := Token(s);
    assert t[0] == s[0];
    if Numeral(t) { NatValueGrows(Digits(t), end - SignLength(s)); }
  }

  // ----- printing -----

  function DigitChar(d: nat): (c: char)
    requires d < 10
    ensures IsDigit(c) && DigitOf(c) == d
  {
    '0' + d as char
  }

  function PrintedNat(n: nat): (s: seq<char>)
    ensures s != [] && AllDigits(s)
    decreases n
  {
    if n < 10 then [DigitChar(n)] else PrintedNat(n / 10) + [DigitChar(n % 10)]
  }

  /** The decimal form of an integer. */
  function Printed(n: int): seq<char> {
    if n < 0 then ['-'] + PrintedNat(-n) else PrintedNat(n)
  }

  lemma {:induction false} PrintedNatValue(n: nat)
    ensures NatValue(PrintedNat(n)) == n
    decreases n
  {
    var s := PrintedNat(n);
    if n < 10 {
      assert s[..0] == [];
    } else {
      PrintedNatValue(n / 10);
      assert s[..|s| - 1] == PrintedNat(n / 10);
    }
  }

  lemma TrimmedAlready(s: seq<char>)
    requires s != [] && !IsSpace(s[0])
    ensures Trimmed(s) == s
  {
  }

  /** The printed form is a numeral without white space. */
  lemma PrintedIsNumeral(n: int)
    ensures Printed(n) != [] && Numeral(Printed(n)) && NumeralValue(Printed(n)) == n
    ensures forall i | 0 <= i < |Printed(n)| :: !IsSpace(Printed(n)[i])
  {
    hide PrintedNat, NatValue;
    var p, d := Printed(n), PrintedNat(if n < 0 then -n else n);
    PrintedNatValue(if n < 0 then -n else n);
    assert Digits(p) == d by {
      if n < 0 { assert p[1..] == d; } else { assert IsDigit(p[0]); }
    }
    forall i | 0 <= i < |p| ensures !IsSpace(p[i]) {
      assert n < 0 && i > 0 ==> p[i] == d[i - 1];
    }
  }

  /** Reading undoes printing, for every 64-bit integer and whatever white space follows. */
  lemma ReadPrinted(n: int, after: seq<char>)
    requires INT64_MIN <= n <= INT64_MAX && (after != [] ==> IsSpace(after[0]))
    ensures Int64(Token(Trimmed(Printed(n) + after))) == Some(n)
  {
    hide Printed, Token, Trimmed, Numeral, NumeralValue;
    var p := Printed(n);
    PrintedIsNumeral(n);
    assert forall i | 0 <= i < |p| :: (p + after)[i] == p[i];
    TrimmedAlready(p + after);
    TokenReaches(p + after, |p|);
    assert (p + after)[..|p|] == p;
  }

  // ----- white space, signs and range, spelled out -----

  /** Space, tab, newline, vertical tab, form feed and carriage return. */
  predicate Blank(c: char) {
    c == ' ' || c == '\t' || c == '\n' || c == 11 as char || c == 12 as char || c == '\r'
  }

  predicate Blanks(s: seq<char>) {
    forall i | 0 <= i < |s| :: Blank(s[i])
  }

  lemma {:induction false} TrimmedBlanks(blanks: seq<char>, s: seq<char>)
    requires Blanks(blanks) && s != [] && !Blank(s[0])
    ensures Trimmed(blanks + s) == s
  {
    if blanks == [] {
      assert blanks + s == s;
    } else {
      assert (blanks + s)[1..] == blanks[1..] + s;
      TrimmedBlanks(blanks[1..], s);
    }
  }

  /** Blanks, a numeral with or without a plus, and then the end or a blank: the number is read exactly if 64 bits can
      hold it. */
  lemma ReadWritten(blanks: seq<char>, plus: bool, n: int, rest: seq<char>)
    requires Blanks(blanks) && (plus ==> n >= 0) && (rest == [] || Blank(rest[0]))
    ensures
      Int64(Token(Trimmed(blanks + (Written(plus, n) + rest)))) ==
        if -0x8000_0000_0000_0000 <= n <= 0x7fff_ffff_ffff_ffff then Some(n) else None
  {
    hide Token;
    var w := Written(plus, n);
    WrittenIsNumeral(plus, n);
    assert (w + rest)[0] == w[0];
    TrimmedBlanks(blanks, w + rest);
    TokenReaches(w + rest, |w|);
    assert (w + rest)[..|w|] == w;
  }

  /** Any other character right behind the digits spoils the token. */
  lemma ReadSpoilt(blanks: seq<char>, plus: bool, n: int, rest: seq<char>)
    requires Blanks(blanks) && (plus ==> n >= 0) && rest != [] && !Blank(rest[0]) && !('0' <= rest[0] <= '9')
    ensures Int64(Token(Trimmed(blanks + (Written(plus, n) + rest)))) == None
  {
    hide Token;
    var w := Written(plus, n);
    var s := w + rest;
    WrittenIsNumeral(plus, n);
    assert s[0] == w[0];
    TrimmedBlanks(blanks, s);
    TokenReaches(s, |w| + 1);
    var t := Token(s);
    assert t[..|w| + 1][|w|] == s[..|w| + 1][|w|] == rest[0];
    assert Digits(t)[|w| - SignLength(w)] == rest[0];
  }

  function Written(plus: bool, n: int): seq<char> {
    (if plus then ['+'] else []) + Printed(n)
  }

  lemma WrittenIsNumeral(plus: bool, n: int)
    requires plus ==> n >= 0
    ensures
      var w := Written(plus, n);
      && w != [] && Numeral(w) && NumeralValue(w) == n
      && forall i | 0 <= i < |w| :: !IsSpace(w[i]) && !Blank(w[i])
  {
    PrintedIsNumeral(n);
    var w := Written(plus, n);
    if plus {
      assert Digits(w) == Printed(n);
    } else {
      assert w == Printed(n);
    }
  }
}
