/** Python's str() of a scalar, str.join, and the split that undoes a join. */
module Strings {
  import opened Wrappers

  /** A value the client receives from its caller or from a JSON document and renders
      with str(): an int (a JSON number) or a string. */
  datatype Scalar = Int(i: int) | Text(s: string)

  function DigitChar(d: nat): char
    requires d < 10
  {
    "0123456789"[d]
  }

  predicate IsDigit(ch: char) { '0' <= ch <= '9' }

  function DigitValue(ch: char): nat
    requires IsDigit(ch)
  {
    (ch - '0') as nat
  }

  /** The decimal digits of `n`, most significant first, without leading zeros. */
  function NatToString(n: nat): string
  {
    if n < 10 then [DigitChar(n)] else NatToString(n / 10) + [DigitChar(n % 10)]
  }

  /** The number that a string of decimal digits denotes. */
  function DecimalValue(s: string): nat
    requires forall i :: 0 <= i < |s| ==> IsDigit(s[i])
  {
    if s == [] then 0 else 10 * DecimalValue(s[..|s| - 1]) + DigitValue(s[|s| - 1])
  }

  /** Python's str(): the decimal rendering of an int, the string itself otherwise. */
  function Str(x: Scalar): string
  {
    match x
    case Int(i) => if i < 0 then "-" + NatToString(-i) else NatToString(i)
    case Text(s) => s
  }

  lemma {:induction false} NatToStringDigits(n: nat)
    ensures |NatToString(n)| >= 1
    ensures forall i :: 0 <= i < |NatToString(n)| ==> IsDigit(NatToString(n)[i])
    ensures DecimalValue(NatToString(n)) == n
  {
    if n < 10 {
      DigitCharValue(n);
    } else {
      NatToStringDigits(n / 10);
      DigitCharValue(n % 10);
      var s := NatToString(n);
      assert s[..|s| - 1] == NatToString(n / 10);
    }
  }

  lemma DigitCharValue(d: nat)
    requires d < 10
    ensures IsDigit(DigitChar(d)) && DigitValue(DigitChar(d)) == d
  {
  }

  /** Distinct ints render as distinct strings, so keying a dict by str() of an int
      loses nothing. */
  lemma NatToStringInjective(m: nat, n: nat)
    requires NatToString(m) == NatToString(n)
    ensures m == n
  {
    NatToStringDigits(m);
    NatToStringDigits(n);
  }

  lemma StrIntFirstChar(a: int)
    ensures |Str(Int(a))| >= 1
    ensures (Str(Int(a))[0] == '-') == (a < 0)
  {
    var n: nat := if a < 0 then -a else a;
    NatToStringDigits(n);
    var d := NatToString(n);
    assert IsDigit(d[0]);
  }

  lemma StrInjectiveOnInts(a: int, b: int)
    requires Str(Int(a)) == Str(Int(b))
    ensures a == b
  {
    StrIntFirstChar(a);
    StrIntFirstChar(b);
    if a < 0 {
      var sa, sb := NatToString(-a), NatToString(-b);
      assert Str(Int(a)) == "-" + sa && Str(Int(b)) == "-" + sb;
      assert sa == Str(Int(a))[1..];
      NatToStringInjective(-a, -b);
    } else {
      NatToStringInjective(a, b);
    }
  }

  /** Python's sep.join(parts). */
  function Join(sep: string, parts: seq<string>): string
  {
    if |parts| == 0 then ""
    else if |parts| == 1 then parts[0]
    else parts[0] + sep + Join(sep, parts[1..])
  }

  /** Python's s.split(sep) for a one-character separator: never empty, and a string
      without the separator splits into itself. */
  function Split(s: string, sep: char): (r: seq<string>)
    ensures |r| >= 1
  {
    if |s| == 0 then [""]
    else
      var rest := Split(s[1..], sep);
      if s[0] == sep then [""] + rest else [[s[0]] + rest[0]] + rest[1..]
  }

  /** No character of `s` is in `chars`. */
  predicate Avoids(s: string, chars: set<char>)
  {
    forall i :: 0 <= i < |s| ==> s[i] !in chars
  }

  lemma {:induction false} SplitWithoutSeparator(s: string, sep: char)
    requires Avoids(s, {sep})
    ensures Split(s, sep) == [s]
  {
    if |s| > 0 {
      SplitWithoutSeparator(s[1..], sep);
      assert [s[0]] + s[1..] == s;
    }
  }

  lemma {:induction false} SplitAtSeparator(x: string, sep: char, t: string)
    requires Avoids(x, {sep})
    ensures Split(x + [sep] + t, sep) == [x] + Split(t, sep)
  {
    var s := x + [sep] + t;
    if |x| == 0 {
      assert s[1..] == t;
    } else {
      assert s[1..] == x[1..] + [sep] + t;
      SplitAtSeparator(x[1..], sep, t);
      assert [x[0]] + x[1..] == x;
    }
  }

  /** Splitting a join on its separator gives the parts back, provided no part contains
      the separator. */
  lemma {:induction false} SplitJoin(parts: seq<string>, sep: char)
    requires |parts| >= 1
    requires forall i :: 0 <= i < |parts| ==> Avoids(parts[i], {sep})
    ensures Split(Join([sep], parts), sep) == parts
  {
    if |parts| == 1 {
      SplitWithoutSeparator(parts[0], sep);
    } else {
      SplitJoin(parts[1..], sep);
      SplitAtSeparator(parts[0], sep, Join([sep], parts[1..]));
      assert parts == [parts[0]] + parts[1..];
    }
  }

  /** A join avoids every character that its parts and its separator avoid. */
  lemma {:induction false} JoinAvoids(sep: string, parts: seq<string>, chars: set<char>)
    requires Avoids(sep, chars)
    requires forall i :: 0 <= i < |parts| ==> Avoids(parts[i], chars)
    ensures Avoids(Join(sep, parts), chars)
  {
    if |parts| > 1 {
      JoinAvoids(sep, parts[1..], chars);
    }
  }

  lemma {:induction false} JoinSnoc(sep: string, parts: seq<string>, x: string)
    requires |parts| >= 1
    ensures Join(sep, parts + [x]) == Join(sep, parts) + sep + x
  {
    if |parts| > 1 {
      assert (parts + [x])[1..] == parts[1..] + [x];
      JoinSnoc(sep, parts[1..], x);
    }
  }

  /** Python's s.partition(sep) for a separator that occurs: the text before its first
      occurrence and the text after it; None when it does not occur. */
  function Partition(s: string, sep: char): Option<(string, string)>
  {
    if |s| == 0 then None
    else if s[0] == sep then Some(("", s[1..]))
    else match Partition(s[1..], sep)
      case None => None
      case Some((head, tail)) => Some(([s[0]] + head, tail))
  }

  lemma {:induction false} PartitionAt(x: string, sep: char, t: string)
    requires Avoids(x, {sep})
    ensures Partition(x + [sep] + t, sep) == Some((x, t))
  {
    var s := x + [sep] + t;
    if |x| == 0 {
      assert s[1..] == t;
    } else {
      assert s[1..] == x[1..] + [sep] + t;
      PartitionAt(x[1..], sep, t);
      assert [x[0]] + x[1..] == x;
    }
  }
}
