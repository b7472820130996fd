/** Which strings are converted to numbers, and to which: the leniency of stoi, said by the parts of a string. */
module Numbers {
  import opened Sequences
  import opened Text

  predicate AreSpaces(s: string) { forall i :: 0 <= i < |s| ==> IsSpace(s[i]) }

  predicate AreDigits(s: string) { forall i :: 0 <= i < |s| ==> IsDigit(s[i]) }

  predicate Starts(s: string, c: char) { s != "" && s[0] == c }

  /** The number with the decimal digits of n and then those in digits. */
  function Appended(n: nat, digits: string): nat
    requires AreDigits(digits)
  {
    if digits == "" then n
    else
      var last := digits[|digits| - 1];
      Appended(n, digits[..|digits| - 1]) * 10 + (last as int - '0' as int)
  }

  function Signed(sign: string, n: int): int {
    if sign == "-" then -n else n
  }

  function In32Bits(n: int): Option<int> {
    if -0x8000_0000 <= n < 0x8000_0000 then Some(n) else None
  }

  lemma {:induction false} AppendedFirst(n: nat, digits: string)
    requires AreDigits(digits) && digits != ""
    ensures Appended(n, digits) == Appended(n * 10 + (digits[0] as int - '0' as int), digits[1..])
  {
    if |digits| == 1 {
      assert digits[..0] == "" && digits[1..] == "";
    } else {
      var init := digits[..|digits| - 1];
      AppendedFirst(n, init);
      assert digits[1..][..|digits| - 2] == init[1..];
    }
  }

  lemma {:induction false} DigitsAreRead(n: nat, digits: string, rest: string)
    requires AreDigits(digits) && (rest == "" || !IsDigit(rest[0]))
    ensures ReadDigits(digits + rest, n) == Appended(n, digits)
    decreases |digits|
  {
    if digits == "" {
      assert digits + rest == rest;
    } else {
      AppendedFirst(n, digits);
      assert (digits + rest)[1..] == digits[1..] + rest;
      DigitsAreRead(n * 10 + (digits[0] as int - '0' as int), digits[1..], rest);
    }
  }

  lemma {:induction false} SpacesAreSkipped(spaces: string, s: string)
    requires AreSpaces(spaces) && (s == "" || !IsSpace(s[0]))
    ensures SkipSpace(spaces + s) == s
    decreases |spaces|
  {
    if spaces == "" {
      assert spaces + s == s;
    } else {
      assert (spaces + s)[1..] == spaces[1..] + s;
      SpacesAreSkipped(spaces[1..], s);
    }
  }

  lemma StoiReads(spaces: string, sign: string, digits: string, rest: string)
    requires AreSpaces(spaces) && sign in {"", "+", "-"}
    requires digits != "" && AreDigits(digits) && (rest == "" || !IsDigit(rest[0]))
    ensures Stoi(spaces + (sign + (digits + rest))) ==
              In32Bits(Signed(sign, Appended(0, digits)))
  {
    var t := sign + (digits + rest);
    SpacesAreSkipped(spaces, t);
    if sign == "" { assert t == digits + rest; } else { assert t[1..] == digits + rest; }
    DigitsAreRead(0, digits, rest);
  }

  lemma StoiRefuses(spaces: string, sign: string, rest: string)
    requires AreSpaces(spaces) && sign in {"", "+", "-"} && (rest == "" || !IsDigit(rest[0]))
    requires sign == "" ==> rest == "" || (!IsSpace(rest[0]) && rest[0] !in {'+', '-'})
    ensures Stoi(spaces + (sign + rest)) == None
  {
    var t := sign + rest;
    SpacesAreSkipped(spaces, t);
    if sign == "" { assert t == rest; } else { assert t[1..] == rest; }
  }

  /**
   * Main result on numbers: a plus sign, white space, a sign, digits, and anything behind them, is the number of the
   * digits, if that is a 32-bit number. Only the digits have to be there.
   */
  lemma NumberIsRead(plus: string, spaces: string, sign: string, digits: string, rest: string)
    requires plus in {"", "+"} && AreSpaces(spaces) && sign in {"", "+", "-"}
    requires digits != "" && AreDigits(digits) && (rest == "" || !IsDigit(rest[0]))
    ensures TryConvertStringToNumberValue(plus + (spaces + (sign + (digits + rest)))) ==
              In32Bits(Signed(sign, Appended(0, digits)))
  {
    hide Stoi;
    var s := spaces + (sign + (digits + rest));
    StoiReads(spaces, sign, digits, rest);
    if plus == "+" {
      assert (plus + s)[1..] == s;
    } else {
      assert plus + s == s;
      if spaces == "" && sign == "+" {
        assert s[1..] == digits + rest;
        assert "" + ("" + (digits + rest)) == digits + rest;
        StoiReads("", "", digits, rest);
      }
    }
  }

  /** Without digits at that place it is refused. */
  lemma NumberIsRefused(plus: string, spaces: string, sign: string, rest: string)
    requires plus in {"", "+"} && AreSpaces(spaces) && sign in {"", "+", "-"} && (rest == "" || !IsDigit(rest[0]))
    requires sign == "" ==> rest == "" || (!IsSpace(rest[0]) && rest[0] !in {'+', '-'})
    requires plus == "" ==> !Starts(spaces + (sign + rest), '+')
    ensures TryConvertStringToNumberValue(plus + (spaces + (sign + rest))) == None
  {
    hide Stoi;
    var s := spaces + (sign + rest);
    StoiRefuses(spaces, sign, rest);
    if plus == "+" { assert (plus + s)[1..] == s; } else { assert plus + s == s; }
  }
}
