/** Characters, decimal numerals, and the string helpers of the engine. */
module StringUtils {
  import opened Wrappers

  /** Whitespace as the C locale has it. */
  predicate IsSpace(c: char) {
    c == ' ' || c == '\t' || c == '\n' || c == '\U{B}' || c == '\U{C}' || c == '\r'
  }

  /** Space, and the control characters from tab to carriage return. */
  lemma Whitespace(c: char)
    ensures IsSpace(c) <==> c as int == 32 || 9 <= c as int <= 13
  {
  }

  predicate IsDigit(c: char) {
    '0' <= c <= '9'
  }

  // ---------- numerals ----------

  function DigitChar(d: nat): (c: char)
    requires d < 10
    ensures IsDigit(c) && c as int - '0' as int == d
  {
    '0' + d as char
  }

  function DigitValue(c: char): (d: nat)
    requires IsDigit(c)
    ensures d < 10
  {
    c as int - '0' as int
  }

  /** The shortest decimal numeral of n. */
  function Numeral(n: nat): (s: string)
    ensures s != [] && forall c :: c in s ==> IsDigit(c)
  {
    if n < 10 then [DigitChar(n)] else Numeral(n / 10) + [DigitChar(n % 10)]
  }

  predicate AllDigits(s: string) {
    forall c :: c in s ==> IsDigit(c)
  }

  function NumeralValue(s: string): nat
    requires AllDigits(s)
  {
    if s == [] then 0 else 10 * NumeralValue(s[..|s| - 1]) + DigitValue(s[|s| - 1])
  }

  lemma {:induction false} NumeralRoundTrip(n: nat)
    ensures NumeralValue(Numeral(n)) == n
  {
    if n < 10 {
      assert Numeral(n)[..0] == [];
    } else {
      NumeralRoundTrip(n / 10);
      assert Numeral(n)[..|Numeral(n)| - 1] == Numeral(n / 10);
    }
  }

  /** A printed numeral has no leading zero. */
  lemma {:induction false} NumeralShortest(n: nat)
    ensures |Numeral(n)| == 1 || Numeral(n)[0] != '0'
    ensures n > 0 ==> Numeral(n)[0] != '0'
  {
    if n >= 10 {
      NumeralShortest(n / 10);
    }
  }

  /** The longest prefix of digits. */
  function DigitPrefix(s: string): (p: string)
    ensures p <= s && AllDigits(p)
    ensures AllDigits(s) ==> p == s
  {
    if s != [] && IsDigit(s[0]) then [s[0]] + DigitPrefix(s[1..]) else []
  }

  function SkipSpaces(s: string): (t: string)
    ensures |t| <= |s|
    ensures s != [] && !IsSpace(s[0]) ==> t == s
  {
    if s != [] && IsSpace(s[0]) then SkipSpaces(s[1..]) else s
  }

  datatype NumberError = NoDigits | TooLarge

  /** An optional sign, then digits; what follows the digits is ignored. */
  function SignedPrefix(s: string): (r: Result<(bool, nat), NumberError>) {
    var t := SkipSpaces(s);
    var negative := t != [] && t[0] == '-';
    var u := if t != [] && (t[0] == '-' || t[0] == '+') then t[1..] else t;
    var digits := DigitPrefix(u);
    if digits == [] then Err(NoDigits) else Ok((negative, NumeralValue(digits)))
  }

  /** A numeral alone reads as its value, without a sign. */
  lemma SignedPrefixOfNumeral(s: string)
    requires s != [] && AllDigits(s)
    ensures SignedPrefix(s) == Ok((false, NumeralValue(s)))
  {
    assert IsDigit(s[0]);
  }

  lemma {:induction false} DigitPrefixStops(digits: string, rest: string)
    requires AllDigits(digits) && (rest == [] || !IsDigit(rest[0]))
    ensures DigitPrefix(digits + rest) == digits
  {
    if digits == [] {
      assert digits + rest == rest;
    } else {
      assert (digits + rest)[1..] == digits[1..] + rest;
      DigitPrefixStops(digits[1..], rest);
    }
  }

  /** What is read: spaces are skipped, one sign is taken, and whatever follows the digits is ignored. */
  lemma SignedPrefixReads(spaces: string, sign: string, digits: string, rest: string)
    requires (forall c :: c in spaces ==> IsSpace(c)) && (sign == "" || sign == "+" || sign == "-")
    requires digits != [] && AllDigits(digits) && (rest == [] || !IsDigit(rest[0]))
    ensures SignedPrefix(spaces + (sign + (digits + rest))) == Ok((sign == "-", NumeralValue(digits)))
  {
    hide SkipSpaces, DigitPrefix, NumeralValue;
    var t := sign + (digits + rest);
    assert IsDigit(digits[0]);
    assert t[0] == if sign == "" then digits[0] else sign[0];
    SkipLeading(spaces, t);
    DigitPrefixStops(digits, rest);
    if sign == "" {
      assert t == digits + rest;
    } else {
      assert t[1..] == digits + rest;
    }
  }

  lemma SkipLeading(spaces: string, s: string)
    requires (forall c :: c in spaces ==> IsSpace(c)) && s != [] && !IsSpace(s[0])
    ensures SkipSpaces(spaces + s) == s
  {
    assert (spaces + s)[|spaces|..] == s;
    SkipSpacesAt(spaces + s, |spaces|);
  }

  /** std::stoi on a 32-bit int. */
  function Stoi(s: string): Result<int, NumberError> {
    match SignedPrefix(s)
    case Err(e) => Err(e)
    case Ok((negative, n)) =>
      if n > (if negative then 0x8000_0000 else 0x7FFF_FFFF) then Err(TooLarge)
      else Ok(if negative then -(n as int) else n)
  }

  const ULONG_RANGE: nat := 0x1_0000_0000_0000_0000

  /** std::stoul on a 64-bit unsigned long: a minus sign negates modulo the range. */
  function Stoul(s: string): (r: Result<nat, NumberError>)
  {
    match SignedPrefix(s)
    case Err(e) => Err(e)
    case Ok((negative, n)) =>
      if n >= ULONG_RANGE then Err(TooLarge)
      else Ok(if negative && n > 0 then ULONG_RANGE - n else n)
  }

  // ---------- upper case ----------

  function UpperChar(c: char): char {
    if 'a' <= c <= 'z' then c - 'a' + 'A' else c
  }

  function Upper(s: string): (t: string)
    ensures |t| == |s| && forall i :: 0 <= i < |s| ==> t[i] == UpperChar(s[i])
  {
    seq(|s|, i requires 0 <= i < |s| => UpperChar(s[i]))
  }

  method ToUpper(s: string) returns (result: string)
    ensures result == Upper(s)
    ensures forall i :: 0 <= i < |s| ==>
              if 'a' <= s[i] <= 'z' then result[i] as int == s[i] as int - 32 else result[i] == s[i]
  {
    result := "";
    for x := 0 to |s|
      invariant |result| == x && forall i :: 0 <= i < x ==> result[i] == UpperChar(s[i])
    {
      result := result + [UpperChar(s[x])];
    }
  }

  // ---------- trimming ----------

  function DropTrailing(s: string): (t: string)
    ensures t <= s
    ensures t != [] ==> !IsSpace(t[|t| - 1])
    ensures s != [] && !IsSpace(s[|s| - 1]) ==> t == s
  {
    if s != [] && IsSpace(s[|s| - 1]) then DropTrailing(s[..|s| - 1]) else s
  }

  function Trimmed(s: string): string {
    DropTrailing(SkipSpaces(s))
  }

  /** The strings on which the search for the last character never looks at the only one there is. */
  predicate OnlyAtFront(s: string) {
    s != [] && !IsSpace(s[0]) && forall i :: 0 < i < |s| ==> IsSpace(s[i])
  }

  lemma {:induction false} SkipSpacesAt(s: string, k: nat)
    requires k <= |s| && (forall i :: 0 <= i < k ==> IsSpace(s[i])) && (k < |s| ==> !IsSpace(s[k]))
    ensures SkipSpaces(s) == s[k..]
  {
    if k > 0 {
      SkipSpacesAt(s[1..], k - 1);
    }
  }

  lemma {:induction false} DropTrailingAt(s: string, k: nat)
    requires k <= |s| && (forall i :: k <= i < |s| ==> IsSpace(s[i])) && (k > 0 ==> !IsSpace(s[k - 1]))
    ensures DropTrailing(s) == s[..k]
  {
    if k < |s| {
      DropTrailingAt(s[..|s| - 1], k);
      assert s[..|s| - 1][..k] == s[..k];
    }
  }

  /** The part between the first and the last character that is not whitespace is the trimmed string. */
  lemma TrimmedBetween(s: string, first: nat, last: nat)
    requires first <= last < |s| && !IsSpace(s[first]) && !IsSpace(s[last])
    requires forall i :: 0 <= i < first || last < i < |s| ==> IsSpace(s[i])
    ensures Trimmed(s) == s[first..last + 1]
  {
    SkipSpacesAt(s, first);
    DropTrailingAt(s[first..], last + 1 - first);
    assert s[first..][..last + 1 - first] == s[first..last + 1];
  }

  /** None stands for reading past the end, which happens exactly on the strings OnlyAtFront describes. */
  method Trim(s: string) returns (r: Option<string>)
    ensures r == if OnlyAtFront(s) then None else Some(Trimmed(s))
    ensures r.None? <==> s != [] && !IsSpace(s[0]) && forall i :: 0 < i < |s| ==> IsSpace(s[i])
  {
    if s == [] {
      return Some("");
    }
    var first: int := -1;
    for x := 0 to |s|
      invariant first == -1 && forall i :: 0 <= i < x ==> IsSpace(s[i])
    {
      if !IsSpace(s[x]) {
        first := x;
        break;
      }
    }
    if first == -1 {
      SkipSpacesAt(s, |s|);
      return Some("");
    }
    var last: int := -1;
    var x := |s| - 1;
    while x != 0
      invariant 0 <= x < |s| && last == -1
      invariant forall i :: x < i < |s| ==> IsSpace(s[i])
      decreases x
    {
      if !IsSpace(s[x]) {
        last := x;
        break;
      }
      x := x - 1;
    }
    if last == -1 {
      return None;
    }
    TrimmedBetween(s, first, last);
    var result := "";
    for x := first to last + 1
      invariant result == s[first..x]
    {
      result := result + [s[x]];
    }
    return Some(result);
  }

  // ---------- splitting ----------

  /** The tokens of rest, the first of them continuing `token`. */
  function SplitFrom(token: string, rest: string, separator: char): (tokens: seq<string>)
    ensures tokens != []
    decreases |rest|
  {
    if rest == [] then [token]
    else if rest[0] == separator then [token] + SplitFrom("", rest[1..], separator)
    else SplitFrom(token + [rest[0]], rest[1..], separator)
  }

  function Tokens(s: string, separator: char): seq<string> {
    SplitFrom("", s, separator)
  }

  method Split(s: string, separator: char) returns (tokens: seq<string>)
    ensures tokens == Tokens(s, separator)
  {
    tokens := [];
    var token := "";
    for i := 0 to |s|
      invariant Tokens(s, separator) == tokens + SplitFrom(token, s[i..], separator)
    {
      assert s[i..][0] == s[i] && s[i..][1..] == s[i + 1..];
      if s[i] == separator {
        tokens := tokens + [token];
        token := "";
        continue;
      }
      token := token + [s[i]];
    }
    tokens := tokens + [token];
  }

  function Joined(tokens: seq<string>, separator: char): string
    requires tokens != []
  {
    if |tokens| == 1 then tokens[0] else tokens[0] + [separator] + Joined(tokens[1..], separator)
  }

  /** Splitting loses nothing, and no token holds the separator. */
  lemma {:induction false} SplitJoins(token: string, rest: string, separator: char)
    requires separator !in token
    ensures Joined(SplitFrom(token, rest, separator), separator) == token + rest
    ensures forall t :: t in SplitFrom(token, rest, separator) ==> separator !in t
    decreases |rest|
  {
    if rest != [] {
      if rest[0] == separator {
        SplitJoins("", rest[1..], separator);
        var tail := SplitFrom("", rest[1..], separator);
        assert ([token] + tail)[1..] == tail;
        assert token + [separator] + ("" + rest[1..]) == token + rest;
      } else {
        SplitJoins(token + [rest[0]], rest[1..], separator);
        assert token + [rest[0]] + rest[1..] == token + rest;
      }
    }
  }

  /** Joining tokens that do not hold the separator is undone by splitting. */
  lemma {:induction false} JoinSplits(tokens: seq<string>, separator: char)
    requires tokens != [] && forall t :: t in tokens ==> separator !in t
    ensures Tokens(Joined(tokens, separator), separator) == tokens
  {
    if |tokens| == 1 {
      assert tokens[0] + "" == tokens[0] && "" + tokens[0] == tokens[0] && tokens == [tokens[0]];
      SplitWord("", tokens[0], "", separator);
    } else {
      var rest := Joined(tokens[1..], separator);
      JoinSplits(tokens[1..], separator);
      assert tokens[0] + [separator] + rest == tokens[0] + ([separator] + rest);
      SplitWord("", tokens[0], [separator] + rest, separator);
      assert ([separator] + rest)[1..] == rest && "" + tokens[0] == tokens[0];
      assert tokens == [tokens[0]] + tokens[1..];
    }
  }

  lemma {:induction false} SplitWord(token: string, word: string, rest: string, separator: char)
    requires separator !in word
    ensures SplitFrom(token, word + rest, separator) == SplitFrom(token + word, rest, separator)
    decreases |word|
  {
    if word == [] {
      assert word + rest == rest && token + word == token;
    } else {
      assert (word + rest)[1..] == word[1..] + rest;
      SplitWord(token + [word[0]], word[1..], rest, separator);
      assert token + [word[0]] + word[1..] == token + word;
    }
  }
}
