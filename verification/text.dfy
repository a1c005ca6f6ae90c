/**
 * Character-level helpers the mailbox code relies on: case-insensitive keyword
 * matching, comma splitting of a sequence set, the decimal number reader used
 * for set endpoints, and the decimal rendering used when results are printed.
 * The C helpers behind them (`MATCH`, `g_string_split`, `dm_strtoull`,
 * `check_msg_set`) are not part of this model; each is given here the plain
 * behaviour its call sites rely on.
 */
module Text {

  /** The literal that Outlook sends for "the highest message". */
  const OutlookHighest: nat := 0xffff_ffff

  predicate IsDigit(c: char) {
    '0' <= c <= '9'
  }

  function DigitValue(c: char): nat
    requires IsDigit(c)
  {
    (c as int - '0' as int) as nat
  }

  function DigitChar(d: nat): (c: char)
    requires d < 10
    ensures IsDigit(c) && DigitValue(c) == d
  {
    ('0' as int + d) as char
  }

  /** ASCII lower-casing of one character. */
  function LowerChar(c: char): char {
    if 'A' <= c <= 'Z' then (c as int + 32) as char else c
  }

  function Lower(s: string): (r: string)
    ensures |r| == |s|
    ensures forall i | 0 <= i < |s| :: r[i] == LowerChar(s[i])
  {
    if s == [] then [] else [LowerChar(s[0])] + Lower(s[1..])
  }

  /**
   * `check_msg_set`: a token that looks like a sequence set — it starts with a
   * digit or `*` and holds only digits, `*`, `:` and `,`.
   */
  predicate IsMsgSet(s: string) {
    && |s| > 0
    && (IsDigit(s[0]) || s[0] == '*')
    && forall i | 0 <= i < |s| :: IsDigit(s[i]) || s[i] in {'*', ':', ','}
  }

  // ---------------------------------------------------------------------
  // Splitting on a separator

  /** The fields of `s` between occurrences of `sep`; empty fields are kept. */
  function Split(s: string, sep: char): (r: seq<string>)
    ensures |r| >= 1
    ensures forall i | 0 <= i < |r| :: sep !in r[i]
  {
    if s == [] then [""]
    else
      var rest := Split(s[1..], sep);
      if s[0] == sep then [""] + rest
      else [[s[0]] + rest[0]] + rest[1..]
  }

  /** The inverse of `Split`: the fields joined back with `sep`. */
  function JoinWith(fields: seq<string>, sep: char): string
    requires |fields| >= 1
  {
    if |fields| == 1 then fields[0] else fields[0] + [sep] + JoinWith(fields[1..], sep)
  }

  lemma {:induction false} JoinSplit(s: string, sep: char)
    ensures JoinWith(Split(s, sep), sep) == s
  {
    if s != [] {
      var rest := Split(s[1..], sep);
      JoinSplit(s[1..], sep);
      if s[0] == sep {
        assert Split(s, sep) == [""] + rest;
        assert ([""] + rest)[1..] == rest;
      } else {
        var r := Split(s, sep);
        assert r == [[s[0]] + rest[0]] + rest[1..];
        if |rest| == 1 {
          assert r == [[s[0]] + rest[0]];
        } else {
          assert r[1..] == rest[1..];
          assert JoinWith(rest, sep) == rest[0] + [sep] + JoinWith(rest[1..], sep);
        }
      }
    }
  }

  lemma {:induction false} SplitJoin(fields: seq<string>, sep: char)
    requires |fields| >= 1
    requires forall i | 0 <= i < |fields| :: sep !in fields[i]
    ensures Split(JoinWith(fields, sep), sep) == fields
  {
    if |fields| == 1 {
      SplitNoSep(fields[0], sep);
    } else {
      var tail := JoinWith(fields[1..], sep);
      SplitJoin(fields[1..], sep);
      SplitPrefix(fields[0], sep, [sep] + tail);
      assert ([sep] + tail)[1..] == tail;
      assert fields[0] + [sep] + tail == fields[0] + ([sep] + tail);
    }
  }

  lemma {:induction false} SplitNoSep(f: string, sep: char)
    requires sep !in f
    ensures Split(f, sep) == [f]
  {
    if f != [] {
      SplitNoSep(f[1..], sep);
      assert [f[0]] + f[1..] == f;
    }
  }

  /** A separator-free field in front of `rest` prepends to the first field of `rest`. */
  lemma {:induction false} SplitPrefix(f: string, sep: char, rest: string)
    requires sep !in f
    requires |rest| > 0 && rest[0] == sep
    ensures Split(f + rest, sep) == [f] + Split(rest[1..], sep)
  {
    if f == [] {
      assert f + rest == rest;
    } else {
      SplitPrefix(f[1..], sep, rest);
      assert (f + rest)[1..] == f[1..] + rest;
      assert [f[0]] + f[1..] == f;
    }
  }

  // ---------------------------------------------------------------------
  // Decimal numbers

  /** The number of leading decimal digits of `s`. */
  function DigitPrefixLength(s: string): (n: nat)
    ensures n <= |s|
    ensures forall i | 0 <= i < n :: IsDigit(s[i])
    ensures n < |s| ==> !IsDigit(s[n])
  {
    if s == [] || !IsDigit(s[0]) then 0 else 1 + DigitPrefixLength(s[1..])
  }

  /** The value of a string of decimal digits, most significant first. */
  function DecimalValue(ds: string): nat
    requires forall i | 0 <= i < |ds| :: IsDigit(ds[i])
  {
    if ds == [] then 0
    else DecimalValue(ds[..|ds| - 1]) * 10 + DigitValue(ds[|ds| - 1])
  }

  /**
   * `dm_strtoull(s, &rest, 10)`: the value of the leading digits and the text
   * after them; 0 with `rest == s` when `s` does not start with a digit.
   */
  function ReadNumber(s: string): (r: (nat, string))
    ensures r.0 == DecimalValue(s[..DigitPrefixLength(s)])
    ensures r.1 == s[DigitPrefixLength(s)..]
    ensures DigitPrefixLength(s) == 0 ==> r.0 == 0 && r.1 == s
  {
    var n := DigitPrefixLength(s);
    (DecimalValue(s[..n]), s[n..])
  }

  /** Decimal rendering of `n` without leading zeros (`%llu`). */
  function NatToString(n: nat): (s: string)
    ensures |s| >= 1
    ensures forall i | 0 <= i < |s| :: IsDigit(s[i])
    ensures DecimalValue(s) == n
    ensures n > 0 ==> s[0] != '0'
  {
    if n < 10 then [DigitChar(n)]
    else
      var s := NatToString(n / 10) + [DigitChar(n % 10)];
      assert s[..|s| - 1] == NatToString(n / 10);
      s
  }

  /** Reading a rendered number back returns it and whatever followed it. */
  lemma ReadRendered(n: nat, rest: string)
    requires rest == [] || !IsDigit(rest[0])
    ensures ReadNumber(NatToString(n) + rest) == (n, rest)
  {
    var s := NatToString(n);
    var t := s + rest;
    DigitPrefixOfDigits(s, rest);
    assert t[..|s|] == s;
    assert t[|s|..] == rest;
  }

  lemma {:induction false} DigitPrefixOfDigits(s: string, rest: string)
    requires forall i | 0 <= i < |s| :: IsDigit(s[i])
    requires rest == [] || !IsDigit(rest[0])
    ensures DigitPrefixLength(s + rest) == |s|
  {
    if s != [] {
      DigitPrefixOfDigits(s[1..], rest);
      assert (s + rest)[1..] == s[1..] + rest;
    } else {
      assert s + rest == rest;
    }
  }

  // ---------------------------------------------------------------------
  // Space-separated lists of numbers

  /** Each number rendered in decimal, separated by single spaces. */
  function JoinNumbers(xs: seq<nat>): string
  {
    if xs == [] then ""
    else if |xs| == 1 then NatToString(xs[0])
    else NatToString(xs[0]) + " " + JoinNumbers(xs[1..])
  }

  /** The rendering of a non-empty list neither starts nor ends with a space. */
  lemma {:induction false} JoinNumbersTrimmed(xs: seq<nat>)
    requires xs != []
    ensures var s := JoinNumbers(xs); |s| > 0 && s[0] != ' ' && s[|s| - 1] != ' '
  {
    var s := JoinNumbers(xs);
    var h := NatToString(xs[0]);
    if |xs| > 1 {
      JoinNumbersTrimmed(xs[1..]);
      var t := JoinNumbers(xs[1..]);
      assert s == h + " " + t;
      assert s[|s| - 1] == t[|t| - 1];
      assert s[0] == h[0];
    } else {
      assert IsDigit(s[0]) && IsDigit(s[|s| - 1]);
    }
  }

  /** Reads a space-separated list of decimal numbers, as a client would. */
  function ParseNumbers(s: string): seq<nat>
  {
    if s == [] then []
    else
      var fields := Split(s, ' ');
      seq(|fields|, i requires 0 <= i < |fields| => ReadNumber(fields[i]).0)
  }

  function Rendered(xs: seq<nat>): (fs: seq<string>)
    ensures |fs| == |xs|
    ensures forall i | 0 <= i < |xs| :: fs[i] == NatToString(xs[i])
  {
    seq(|xs|, i requires 0 <= i < |xs| => NatToString(xs[i]))
  }

  lemma {:induction false} JoinNumbersIsJoinWith(xs: seq<nat>)
    requires xs != []
    ensures JoinNumbers(xs) == JoinWith(Rendered(xs), ' ')
  {
    if |xs| > 1 {
      JoinNumbersIsJoinWith(xs[1..]);
      assert Rendered(xs)[1..] == Rendered(xs[1..]);
    }
  }

  /** The printed list reads back as the same numbers in the same order. */
  lemma JoinNumbersRoundTrip(xs: seq<nat>)
    ensures ParseNumbers(JoinNumbers(xs)) == xs
  {
    if xs != [] {
      var fs := Rendered(xs);
      JoinNumbersIsJoinWith(xs);
      forall i | 0 <= i < |fs| ensures ' ' !in fs[i] {
        assert forall j | 0 <= j < |fs[i]| :: IsDigit(fs[i][j]);
      }
      SplitJoin(fs, ' ');
      JoinNumbersTrimmed(xs);
      forall i | 0 <= i < |xs| ensures ReadNumber(fs[i]).0 == xs[i] {
        ReadRendered(xs[i], []);
        assert fs[i] + [] == fs[i];
      }
    }
  }

  // ---------------------------------------------------------------------
  // Trailing white space

  /** `isspace` in the C locale. */
  predicate IsSpace(c: char) {
    c == ' ' || c == '\t' || c == '\n' || c == '\r' || c as int == 11 || c as int == 12
  }

  /** `g_strchomp`: `s` without its trailing white space. */
  function Chomp(s: string): (r: string)
    ensures |r| <= |s| && r == s[..|r|]
    ensures r == [] || !IsSpace(r[|r| - 1])
    ensures forall i | |r| <= i < |s| :: IsSpace(s[i])
  {
    if s != [] && IsSpace(s[|s| - 1]) then Chomp(s[..|s| - 1]) else s
  }

  /** Each number printed with `"%llu "`: in decimal and followed by a space. */
  function SpaceTerminated(xs: seq<nat>): string
  {
    if xs == [] then "" else NatToString(xs[0]) + " " + SpaceTerminated(xs[1..])
  }

  lemma {:induction false} SpaceTerminatedIsJoined(xs: seq<nat>)
    requires xs != []
    ensures SpaceTerminated(xs) == JoinNumbers(xs) + " "
  {
    if |xs| > 1 {
      SpaceTerminatedIsJoined(xs[1..]);
    } else {
      assert xs[1..] == [];
    }
  }

  /**
   * Chomping the space-terminated list leaves the numbers separated by
   * single spaces, which read back as the same numbers in the same order.
   */
  lemma ChompSpaceTerminated(xs: seq<nat>)
    ensures Chomp(SpaceTerminated(xs)) == JoinNumbers(xs)
    ensures ParseNumbers(Chomp(SpaceTerminated(xs))) == xs
  {
    if xs != [] {
      SpaceTerminatedIsJoined(xs);
      JoinNumbersTrimmed(xs);
      var j := JoinNumbers(xs);
      assert (j + " ")[..|j|] == j;
    }
    JoinNumbersRoundTrip(xs);
  }
}
