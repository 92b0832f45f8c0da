/** The parts of Go's strings and strconv packages that the emulator's names, tokens and patterns rely on. */
module GoStrings {
  import opened Wrappers

  // ---- Prefixes and substring search -------------------------------------------------------

  /** strings.TrimPrefix; strings.HasPrefix(s, p) is Dafny's p <= s. */
  function TrimPrefix(s: string, p: string): (r: string)
    ensures if p <= s then s == p + r else r == s
  {
    if p <= s then s[|p|..] else s
  }

  /** strings.Trim: drops the leading and trailing characters that belong to the cutset. */
  function Trim(s: string, cutset: string): (r: string)
    ensures r != "" ==> r[0] !in cutset && r[|r| - 1] !in cutset
  {
    if s == "" then ""
    else if s[0] in cutset then Trim(s[1..], cutset)
    else if s[|s| - 1] in cutset then Trim(s[..|s| - 1], cutset)
    else s
  }

  predicate OnlyOf(s: string, cutset: string) {
    forall k :: 0 <= k < |s| ==> s[k] in cutset
  }

  lemma CutsFront(c: char, a: string, t: string, b: string, cutset: string)
    requires OnlyOf(a, cutset) && c in cutset
    ensures [c] + (a + t + b) == [c] + a + t + b && OnlyOf([c] + a, cutset)
  {
  }

  lemma CutsBack(a: string, t: string, b: string, c: char, cutset: string)
    requires OnlyOf(b, cutset) && c in cutset
    ensures a + t + b + [c] == a + t + (b + [c]) && OnlyOf(b + [c], cutset)
  {
  }

  /** What Trim drops is made of the cutset. */
  lemma {:induction false} TrimCuts(s: string, cutset: string) returns (a: string, b: string)
    ensures s == a + Trim(s, cutset) + b && OnlyOf(a, cutset) && OnlyOf(b, cutset)
  {
    if s != "" && s[0] in cutset {
      a, b := TrimCuts(s[1..], cutset);
      CutsFront(s[0], a, Trim(s, cutset), b, cutset);
      a := [s[0]] + a;
    } else if s != "" && s[|s| - 1] in cutset {
      a, b := TrimCuts(s[..|s| - 1], cutset);
      CutsBack(a, Trim(s, cutset), b, s[|s| - 1], cutset);
      b := b + [s[|s| - 1]];
    } else {
      a, b := "", "";
    }
  }

  /** Trim drops everything of the cutset around a text that neither begins nor ends with such a character. */
  lemma {:induction false} TrimDropsEnds(a: string, s: string, b: string, cutset: string)
    requires OnlyOf(a, cutset) && OnlyOf(b, cutset) && (s != "" ==> s[0] !in cutset && s[|s| - 1] !in cutset)
    ensures Trim(a + s + b, cutset) == s
    decreases |a| + |b|
  {
    var whole := a + s + b;
    if a != "" {
      assert whole[1..] == a[1..] + s + b;
      TrimDropsEnds(a[1..], s, b, cutset);
    } else if b != "" {
      if s == "" {
        assert whole[1..] == b[1..] == "" + "" + b[1..];
        TrimDropsEnds("", "", b[1..], cutset);
      } else {
        assert whole[..|whole| - 1] == a + s + b[..|b| - 1];
        TrimDropsEnds(a, s, b[..|b| - 1], cutset);
      }
    } else {
      assert whole == s;
    }
  }

  const WHITE: string := " \t\n\r\U{000B}\U{000C}"

  /** strings.TrimSpace, for ASCII white space. */
  function TrimSpace(s: string): string {
    Trim(s, WHITE)
  }

  /** strings.ToLower, for ASCII letters. */
  function ToLower(s: string): (r: string)
    ensures |r| == |s|
  {
    seq(|s|, k requires 0 <= k < |s| =>
      if 'A' <= s[k] <= 'Z' then (s[k] as int - 'A' as int + 'a' as int) as char else s[k])
  }

  /** The text spells the word, up to the case of ASCII letters. */
  predicate SpelledAnyCase(s: string, word: string) {
    |s| == |word| && forall k :: 0 <= k < |s| ==> s[k] == word[k] || ('a' <= word[k] <= 'z' && s[k] as int + 32 == word[k] as int)
  }

  predicate NoUpper(s: string) {
    forall k :: 0 <= k < |s| ==> !('A' <= s[k] <= 'Z')
  }

  lemma LowersToIff(s: string, word: string)
    requires NoUpper(word)
    ensures ToLower(s) == word <==> SpelledAnyCase(s, word)
  {
    assert forall k :: 0 <= k < |s| && 'A' <= s[k] <= 'Z' ==> ToLower(s)[k] as int == s[k] as int + 32;
  }

  predicate OccursAt(s: string, sep: string, i: int) {
    0 <= i <= |s| - |sep| && s[i..i + |sep|] == sep
  }

  /** strings.LastIndex: the greatest position at which sep occurs, or -1. */
  function LastIndex(s: string, sep: string): (r: int)
    ensures -1 <= r <= |s|
    ensures r >= 0 ==> OccursAt(s, sep, r)
    ensures forall j :: r < j ==> !OccursAt(s, sep, j)
  {
    LastIndexUpTo(s, sep, |s|)
  }

  function LastIndexUpTo(s: string, sep: string, i: int): (r: int)
    requires -1 <= i <= |s|
    ensures -1 <= r <= i
    ensures r >= 0 ==> OccursAt(s, sep, r)
    ensures forall j :: r < j <= i ==> !OccursAt(s, sep, j)
    decreases i + 1
  {
    if i < 0 || OccursAt(s, sep, i) then i else LastIndexUpTo(s, sep, i - 1)
  }

  /** An occurrence with none after it is the one LastIndex reports. */
  lemma LastIndexIs(s: string, sep: string, i: int)
    requires OccursAt(s, sep, i)
    requires forall j :: i < j ==> !OccursAt(s, sep, j)
    ensures LastIndex(s, sep) == i
  {
    var r := LastIndex(s, sep);
    assert r < i ==> !OccursAt(s, sep, i);
  }

  /** No occurrence starts after i when the character it would have at offset k is missing from there on. */
  lemma NoneAfter(s: string, sep: string, i: int, k: nat)
    requires k < |sep| && -1 <= i
    requires forall m :: i + k < m < |s| ==> s[m] != sep[k]
    ensures forall j :: i < j ==> !OccursAt(s, sep, j)
  {
    forall j | OccursAt(s, sep, j) ensures s[j + k] == sep[k] {
      assert s[j..j + |sep|][k] == s[j + k];
    }
  }

  // ---- Segments ----------------------------------------------------------------------------

  /** strings.Split(s, "/"): the pieces between slashes; the empty string has one empty piece. */
  function Split(s: string): (segs: seq<string>)
    ensures |segs| >= 1
  {
    if s == "" then [""]
    else
      var rest := Split(s[1..]);
      if s[0] == '/' then [""] + rest else [[s[0]] + rest[0]] + rest[1..]
  }

  /** strings.Join(segs, "/"). */
  function Join(segs: seq<string>): string {
    if segs == [] then ""
    else if |segs| == 1 then segs[0]
    else segs[0] + "/" + Join(segs[1..])
  }

  predicate SlashFree(segs: seq<string>) {
    forall k :: 0 <= k < |segs| ==> '/' !in segs[k]
  }

  lemma JoinCons(c: char, head: string, rest: seq<string>)
    ensures Join([[c] + head] + rest) == [c] + Join([head] + rest)
  {
    assert ([[c] + head] + rest)[1..] == rest == ([head] + rest)[1..];
  }

  /** The pieces are slash-free and Join puts the string back together. */
  lemma {:induction false} JoinSplit(s: string)
    ensures SlashFree(Split(s)) && Join(Split(s)) == s
  {
    if s != "" {
      var rest := Split(s[1..]);
      JoinSplit(s[1..]);
      if s[0] == '/' {
        assert Split(s)[1..] == rest;
      } else {
        JoinCons(s[0], rest[0], rest[1..]);
        assert [rest[0]] + rest[1..] == rest;
      }
    }
  }

  /** Split undoes Join on every non-empty list of slash-free segments, so Split is a bijection onto those lists. */
  lemma {:induction false} SplitJoin(segs: seq<string>)
    requires |segs| >= 1 && SlashFree(segs)
    ensures Split(Join(segs)) == segs
    decreases |segs|, |segs[0]|
  {
    if segs[0] == "" {
      if |segs| > 1 {
        SplitJoin(segs[1..]);
        assert Join(segs) == "/" + Join(segs[1..]);
        assert Join(segs)[1..] == Join(segs[1..]);
        assert segs == [""] + segs[1..];
      }
    } else {
      var c, head, rest := segs[0][0], segs[0][1..], segs[1..];
      assert segs[0] == [c] + head && segs == [[c] + head] + rest;
      SplitJoin([head] + rest);
      JoinCons(c, head, rest);
      assert Join(segs)[1..] == Join([head] + rest);
      assert ([head] + rest)[1..] == rest;
    }
  }

  lemma {:induction false} LastPiece(a: string, b: string)
    requires '/' !in b
    ensures |Split(a + "/" + b)| >= 2
    ensures Split(a + "/" + b)[|Split(a + "/" + b)| - 1] == b
  {
    var s := a + "/" + b;
    if a == "" {
      assert s[1..] == b;
      SplitJoin([b]);
    } else {
      assert s[1..] == a[1..] + "/" + b;
      LastPiece(a[1..], b);
    }
  }

  /** The last piece of Split is the text after the last slash, which is how list filters and parsers can agree. */
  lemma LastOfSplit(s: string)
    ensures Split(s)[|Split(s)| - 1] == s[LastIndex(s, "/") + 1..]
    ensures '/' !in s[LastIndex(s, "/") + 1..]
  {
    var i := LastIndex(s, "/");
    var b := s[i + 1..];
    forall k | 0 <= k < |b| ensures b[k] != '/' {
      assert !OccursAt(s, "/", i + 1 + k);
      assert s[i + 1 + k..i + 2 + k] == [b[k]];
    }
    if i < 0 {
      assert s == b;
      SplitJoin([b]);
    } else {
      assert s == s[..i] + s[i..i + 1] + b;
      LastPiece(s[..i], b);
    }
  }

  // ---- Order -------------------------------------------------------------------------------

  /** Go's < on strings. */
  predicate Less(a: string, b: string) {
    b != "" && (a == "" || a[0] < b[0] || (a[0] == b[0] && Less(a[1..], b[1..])))
  }

  lemma LessIsTotal(a: string, b: string)
    ensures Less(a, b) || Less(b, a) || a == b
    ensures !(Less(a, b) && Less(b, a)) && (a == b ==> !Less(a, b))
  {
    if a != "" && b != "" && a[0] == b[0] {
      LessIsTotal(a[1..], b[1..]);
      assert a == [a[0]] + a[1..] && b == [b[0]] + b[1..];
    }
  }

  /** One goes on where the other ends, or has the smaller character at the first place where they differ. */
  predicate BeforeAt(a: string, b: string, k: nat) {
    k <= |a| && k < |b| && a[..k] == b[..k] && (k == |a| || a[k] < b[k])
  }

  ghost predicate Precedes(a: string, b: string) {
    exists k: nat :: BeforeAt(a, b, k)
  }

  lemma {:induction false} LessIff(a: string, b: string)
    ensures Less(a, b) <==> Precedes(a, b)
  {
    if a == "" || b == "" || a[0] != b[0] {
      assert b != "" && (a == "" || a[0] < b[0]) ==> BeforeAt(a, b, 0);
      if k: nat :| BeforeAt(a, b, k) {
        HeadsAgree(a, b, k);
      }
    } else {
      LessIff(a[1..], b[1..]);
      if k: nat :| BeforeAt(a, b, k) {
        TailsDiffer(a, b, k - 1);
      }
      if k: nat :| BeforeAt(a[1..], b[1..], k) {
        TailsDiffer(a, b, k);
      }
    }
  }

  lemma HeadsAgree(a: string, b: string, k: nat)
    requires BeforeAt(a, b, k)
    ensures k == 0 || (a != "" && b != "" && a[0] == b[0])
  {
    if k > 0 {
      assert a[0] == a[..k][0] && b[0] == b[..k][0];
    }
  }

  lemma TailsDiffer(a: string, b: string, k: nat)
    requires a != "" && b != "" && a[0] == b[0]
    ensures BeforeAt(a[1..], b[1..], k) <==> BeforeAt(a, b, k + 1)
  {
    assert k < |a| ==> a[..k + 1] == [a[0]] + a[1..][..k];
    assert k < |b| ==> b[..k + 1] == [b[0]] + b[1..][..k];
  }

  lemma LessIsTransitive(a: string, b: string, c: string)
    requires Less(a, b) && Less(b, c)
    ensures Less(a, c)
  {
  }

  // ---- Decimal integers --------------------------------------------------------------------

  const MAX_INT: int := 0x7FFF_FFFF_FFFF_FFFF
  const TWO_64: int := 0x1_0000_0000_0000_0000

  /** The value that a 64-bit two's-complement int holds after an operation whose exact result is n. */
  function Wrap64(n: int): (r: int)
    ensures -MAX_INT - 1 <= r <= MAX_INT
    ensures (r - n) % TWO_64 == 0
    ensures -MAX_INT - 1 <= n <= MAX_INT ==> r == n
    ensures MAX_INT < n <= 2 * MAX_INT ==> r == n - TWO_64
  {
    (n + MAX_INT + 1) % TWO_64 - MAX_INT - 1
  }

  function Digit(d: int): char
    requires 0 <= d < 10
  {
    ('0' as int + d) as char
  }

  function Digits(n: nat): (s: string)
    ensures s != ""
  {
    if n < 10 then [Digit(n)] else Digits(n / 10) + [Digit(n % 10)]
  }

  /** strconv.Itoa. */
  function Itoa(n: int): string {
    if n < 0 then "-" + Digits(-n) else Digits(n)
  }

  function ParseDigits(s: string): Option<nat> {
    if s == "" then None
    else
      var c := s[|s| - 1];
      var init := s[..|s| - 1];
      if !('0' <= c <= '9') then None
      else if init == "" then Some(c as int - '0' as int)
      else match ParseDigits(init)
           case None => None
           case Some(v) => Some(10 * v + (c as int - '0' as int))
  }

  /** strconv.Atoi: an optional sign, then decimal digits, and a value that fits 64 bits. */
  function Atoi(s: string): Option<int> {
    var negative := s != "" && s[0] == '-';
    var digits := if s != "" && (s[0] == '-' || s[0] == '+') then s[1..] else s;
    match ParseDigits(digits)
    case None => None
    case Some(v) =>
      var n: int := if negative then -(v as int) else v;
      if -MAX_INT - 1 <= n <= MAX_INT then Some(n) else None
  }

  lemma {:induction false} ParseDigitsUndoesDigits(n: nat)
    ensures ParseDigits(Digits(n)) == Some(n)
    ensures '0' <= Digits(n)[0] <= '9'
  {
    if n >= 10 {
      ParseDigitsUndoesDigits(n / 10);
      assert Digits(n)[..|Digits(n)| - 1] == Digits(n / 10);
    }
  }

  /** Printing and parsing an int round-trips over the whole 64-bit range. */
  lemma AtoiUndoesItoa(n: int)
    requires -MAX_INT - 1 <= n <= MAX_INT
    ensures Atoi(Itoa(n)) == Some(n)
    ensures Itoa(n) != ""
  {
    ParseDigitsUndoesDigits(if n < 0 then -n else n);
    if n < 0 {
      assert Itoa(n)[1..] == Digits(-n);
    }
  }

  predicate Zeros(s: string) {
    forall k :: 0 <= k < |s| ==> s[k] == '0'
  }

  lemma {:induction false} ParseZeros(zeros: string, n: nat)
    requires Zeros(zeros)
    ensures ParseDigits(zeros + Digits(n)) == Some(n)
    decreases n, |zeros|
  {
    var s, last := zeros + Digits(n), |zeros| + |Digits(n)| - 1;
    if n >= 10 {
      assert s[..last] == zeros + Digits(n / 10);
      ParseZeros(zeros, n / 10);
    } else if zeros != "" {
      assert s[..last] == zeros == zeros[..|zeros| - 1] + Digits(0);
      ParseZeros(zeros[..|zeros| - 1], 0);
    }
  }

  lemma OneDigitMore(zeros: string, n: nat, d: nat) returns (more: string)
    requires Zeros(zeros) && d < 10
    ensures Zeros(more) && zeros + Digits(n) + [Digit(d)] == more + Digits(10 * n + d)
  {
    more := if n == 0 then zeros + "0" else zeros;
    assert (10 * n + d) / 10 == n && (10 * n + d) % 10 == d;
  }

  lemma {:induction false} ParsedIsPrinted(s: string) returns (zeros: string)
    requires ParseDigits(s).Some?
    ensures Zeros(zeros) && s == zeros + Digits(ParseDigits(s).value)
  {
    var last := |s| - 1;
    zeros := "";
    if last > 0 {
      var d := s[last] as int - '0' as int;
      zeros := ParsedIsPrinted(s[..last]);
      zeros := OneDigitMore(zeros, ParseDigits(s[..last]).value, d);
      assert s == s[..last] + [Digit(d)];
    }
  }

  /** A numeral of n: perhaps a sign, perhaps zeros, and the digits of n as they are printed. */
  predicate IsNumeral(s: string, sign: string, zeros: string, n: int) {
    && s == sign + zeros + Digits(if n < 0 then -n else n) && Zeros(zeros)
    && if n < 0 then sign == "-" else sign == "" || sign == "+" || (sign == "-" && n == 0)
  }

  ghost predicate SpellsInt(s: string, n: int) {
    exists sign, zeros :: IsNumeral(s, sign, zeros, n)
  }

  lemma AtoiOfSigned(sign: string, digits: string)
    requires sign == "" || sign == "+" || sign == "-"
    requires digits != "" && '0' <= digits[0] <= '9'
    ensures Atoi(sign + digits) ==
            match ParseDigits(digits)
            case None => None
            case Some(v) =>
              var n: int := if sign == "-" then -(v as int) else v;
              if -MAX_INT - 1 <= n <= MAX_INT then Some(n) else None
  {
    var s := sign + digits;
    if sign == "" {
      assert s == digits;
    } else {
      assert s[0] == sign[0] && s[1..] == digits;
    }
  }

  lemma NumeralParses(s: string, sign: string, zeros: string, n: int)
    requires IsNumeral(s, sign, zeros, n) && -MAX_INT - 1 <= n <= MAX_INT
    ensures Atoi(s) == Some(n)
  {
    var m: nat := if n < 0 then -n else n;
    var digits := zeros + Digits(m);
    assert s == sign + digits;
    DigitsParse(zeros, m);
    AtoiOfSigned(sign, digits);
  }

  lemma DigitsParse(zeros: string, m: nat)
    requires Zeros(zeros)
    ensures var digits := zeros + Digits(m); ParseDigits(digits) == Some(m) && '0' <= digits[0] <= '9'
  {
    ParseZeros(zeros, m);
    ParseDigitsUndoesDigits(m);
  }

  lemma ParsedIsNumeral(s: string) returns (sign: string, zeros: string)
    requires Atoi(s).Some?
    ensures IsNumeral(s, sign, zeros, Atoi(s).value)
  {
    sign := if s[0] == '-' || s[0] == '+' then s[..1] else "";
    var rest := s[|sign|..];
    zeros := ParsedIsPrinted(rest);
    SignedIsNumeral(s, sign, rest, zeros, ParseDigits(rest).value);
  }

  lemma SignedIsNumeral(s: string, sign: string, rest: string, zeros: string, m: nat)
    requires s == sign + rest && rest == zeros + Digits(m) && Zeros(zeros)
    requires sign == "" || sign == "+" || sign == "-"
    ensures IsNumeral(s, sign, zeros, if sign == "-" then 0 - m else m)
  {
  }

  /** Atoi accepts exactly the numerals of 64-bit integers, and gives the integer. */
  lemma AtoiIff(s: string, n: int)
    ensures Atoi(s) == Some(n) <==> SpellsInt(s, n) && -MAX_INT - 1 <= n <= MAX_INT
  {
    if Atoi(s) == Some(n) {
      var sign, zeros := ParsedIsNumeral(s);
    }
    if SpellsInt(s, n) && -MAX_INT - 1 <= n <= MAX_INT {
      var sign, zeros :| IsNumeral(s, sign, zeros, n);
      NumeralParses(s, sign, zeros, n);
    }
  }

  /** Numerals are decimal, the most significant digit first. */
  lemma ItoaIsDecimal()
    ensures Itoa(120) == "120" && Itoa(-7) == "-7"
  {
    assert Digits(1) == "1" && Digits(12) == "12" && Digits(120) == "120";
  }
}
