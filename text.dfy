/**
 * String helpers standing in for the few `str` methods the tool relies on:
 * `strip`, `lower`, `upper`, `split`, `startswith`, `int`/`str` on
 * naturals and the ordering `sorted` uses.
 */
module Text {

  /** Python's `str.isspace` for the characters it accepts. */
  predicate IsSpace(c: char) {
    var n := c as int;
    n == 32 || (9 <= n <= 13) || (28 <= n <= 31) || n == 0x85 || n == 0xA0 ||
    n == 0x1680 || (0x2000 <= n <= 0x200A) || n == 0x2028 || n == 0x2029 ||
    n == 0x202F || n == 0x205F || n == 0x3000
  }

  /** `s.lstrip()` */
  function TrimStart(s: string): (r: string)
    ensures |r| <= |s| && r == s[|s| - |r|..]
    ensures r != [] ==> !IsSpace(r[0])
    ensures forall i :: 0 <= i < |s| - |r| ==> IsSpace(s[i])
  {
    if s != [] && IsSpace(s[0]) then TrimStart(s[1..]) else s
  }

  /** `s.rstrip()` */
  function TrimEnd(s: string): (r: string)
    ensures |r| <= |s| && r == s[..|r|]
    ensures r != [] ==> !IsSpace(r[|r| - 1])
    ensures forall i :: |r| <= i < |s| ==> IsSpace(s[i])
  {
    if s != [] && IsSpace(s[|s| - 1]) then TrimEnd(s[..|s| - 1]) else s
  }

  /**
   * `r` is the slice of `s` that starts at `k`, and every character of `s`
   * before or after that slice is whitespace.
   */
  predicate Strips(s: string, k: nat, r: string) {
    k + |r| <= |s| && r == s[k..k + |r|] &&
    (forall i :: 0 <= i < k ==> IsSpace(s[i])) &&
    (forall i :: k + |r| <= i < |s| ==> IsSpace(s[i]))
  }

  /** `s.strip()`: what is left once leading and trailing whitespace is gone. */
  function Trim(s: string): (r: string)
    ensures |r| <= |s|
    ensures r != [] ==> !IsSpace(r[0]) && !IsSpace(r[|r| - 1])
    ensures s == [] || (!IsSpace(s[0]) && !IsSpace(s[|s| - 1])) ==> r == s
  {
    TrimUnpadded(s);
    TrimEnd(TrimStart(s))
  }

  /**
   * What `strip` keeps is the slice of `s` after the `|s| - |TrimStart(s)|`
   * characters `lstrip` drops, and every character it drops is whitespace.
   */
  lemma TrimStrips(s: string)
    ensures Strips(s, |s| - |TrimStart(s)|, Trim(s))
  {
    TrimEndOfSuffix(s, TrimStart(s));
  }

  /** Right-stripping a suffix of `s` keeps a slice of `s` and drops only whitespace. */
  lemma {:induction false} TrimEndOfSuffix(s: string, t: string)
    requires |t| <= |s| && t == s[|s| - |t|..]
    requires forall i :: 0 <= i < |s| - |t| ==> IsSpace(s[i])
    ensures Strips(s, |s| - |t|, TrimEnd(t))
  {
    var k := |s| - |t|;
    var r := TrimEnd(t);
    assert r == t[..|r|];
    forall i | k + |r| <= i < |s| ensures IsSpace(s[i]) {
      assert s[i] == t[i - k];
    }
  }

  lemma {:induction false} TrimUnpadded(s: string)
    ensures s == [] || (!IsSpace(s[0]) && !IsSpace(s[|s| - 1])) ==> TrimEnd(TrimStart(s)) == s
  {
    if s != [] && !IsSpace(s[0]) && !IsSpace(s[|s| - 1]) {
      assert TrimStart(s) == s;
    }
  }

  /** Trimming twice changes nothing more. */
  lemma TrimIdempotent(s: string)
    ensures Trim(Trim(s)) == Trim(s)
  {
    var t := Trim(s);
    if t != [] {
      assert TrimStart(t) == t;
      assert TrimEnd(t) == t;
    }
  }

  /** `c.lower()`: an ASCII capital becomes its small letter, any other character stays. */
  function LowerChar(c: char): char {
    if 'A' <= c <= 'Z' then (c as int + 32) as char else c
  }

  /** `c.upper()`: an ASCII small letter becomes its capital, any other character stays. */
  function UpperChar(c: char): char {
    if 'a' <= c <= 'z' then (c as int - 32) as char else c
  }

  /** `s.lower()` on ASCII letters. */
  function Lower(s: string): (r: string)
    ensures |r| == |s|
    ensures forall i :: 0 <= i < |s| ==> r[i] == LowerChar(s[i]) && !('A' <= r[i] <= 'Z')
  {
    seq(|s|, i requires 0 <= i < |s| => LowerChar(s[i]))
  }

  /** `s.upper()` on ASCII letters. */
  function Upper(s: string): (r: string)
    ensures |r| == |s|
    ensures forall i :: 0 <= i < |s| ==> r[i] == UpperChar(s[i]) && !('a' <= r[i] <= 'z')
  {
    seq(|s|, i requires 0 <= i < |s| => UpperChar(s[i]))
  }

  predicate StartsWith(s: string, prefix: string) {
    |prefix| <= |s| && s[..|prefix|] == prefix
  }

  predicate EndsWith(s: string, suffix: string) {
    |suffix| <= |s| && s[|s| - |suffix|..] == suffix
  }

  /** `s.find(t) >= 0` */
  predicate Contains(s: string, t: string) {
    StartsWith(s, t) || (s != [] && Contains(s[1..], t))
  }

  /** Position of the first `c` in `s`. */
  function IndexOf(s: string, c: char): (k: nat)
    requires c in s
    ensures k < |s| && s[k] == c && c !in s[..k]
  {
    if s[0] == c then 0 else 1 + IndexOf(s[1..], c)
  }

  /** `s.split(sep)` for a one-character separator. */
  function Split(s: string, sep: char): (r: seq<string>)
    ensures |r| >= 1
    ensures forall i :: 0 <= i < |r| ==> sep !in r[i]
    decreases |s|
  {
    if sep !in s then [s]
    else
      var k := IndexOf(s, sep);
      [s[..k]] + Split(s[k + 1..], sep)
  }

  /** `sep.join(fields)` */
  function Join(fields: seq<string>, sep: char): string {
    if fields == [] then []
    else if |fields| == 1 then fields[0]
    else fields[0] + [sep] + Join(fields[1..], sep)
  }

  /** Splitting what was joined gives the fields back when none holds the separator. */
  lemma {:induction false} SplitJoin(fields: seq<string>, sep: char)
    requires |fields| >= 1
    requires forall i :: 0 <= i < |fields| ==> sep !in fields[i]
    ensures Split(Join(fields, sep), sep) == fields
  {
    if |fields| > 1 {
      var s := Join(fields, sep);
      var rest := Join(fields[1..], sep);
      assert s == fields[0] + [sep] + rest;
      assert sep in s by { assert s[|fields[0]|] == sep; }
      IndexOfConcat(fields[0], sep, rest);
      assert s[|fields[0]| + 1..] == rest;
      assert s[..|fields[0]|] == fields[0];
      SplitJoin(fields[1..], sep);
    }
  }

  lemma IndexOfConcat(a: string, sep: char, b: string)
    requires sep !in a
    ensures sep in a + [sep] + b && IndexOf(a + [sep] + b, sep) == |a|
  {
    var s := a + [sep] + b;
    assert s[|a|] == sep;
    assert s[..|a|] == a;
  }

  /** Joining what was split gives the string back. */
  lemma {:induction false} JoinSplit(s: string, sep: char)
    ensures Join(Split(s, sep), sep) == s
    decreases |s|
  {
    if sep in s {
      var k := IndexOf(s, sep);
      var rest := Split(s[k + 1..], sep);
      JoinSplit(s[k + 1..], sep);
      JoinCons(s[..k], rest, sep);
      assert s == s[..k] + [sep] + s[k + 1..];
    }
  }

  lemma JoinCons(a: string, rest: seq<string>, sep: char)
    requires |rest| >= 1
    ensures Join([a] + rest, sep) == a + [sep] + Join(rest, sep)
  {
    assert ([a] + rest)[1..] == rest;
  }

  /** Splitting at the last separator adds one field at the end. */
  lemma {:induction false} SplitAppend(a: string, sep: char, b: string)
    requires sep !in b
    ensures Split(a + ([sep] + b), sep) == Split(a, sep) + [b]
    decreases |a|
  {
    if sep in a {
      var k := IndexOf(a, sep);
      var tail := a[k + 1..] + ([sep] + b);
      var front := Split(a[k + 1..], sep);
      SplitFirstField(a, sep, [sep] + b);
      assert Split(a + ([sep] + b), sep) == [a[..k]] + Split(tail, sep);
      SplitAppend(a[k + 1..], sep, b);
      assert Split(tail, sep) == front + [b];
      assert Split(a, sep) == [a[..k]] + front;
      AppendAssoc([a[..k]], front, [b]);
    } else {
      SplitLastSeparator(a, sep, b);
    }
  }

  /** A separator in the first part fixes the first field of the whole. */
  lemma SplitFirstField(a: string, sep: char, b: string)
    requires sep in a
    ensures var k := IndexOf(a, sep);
            Split(a + b, sep) == [a[..k]] + Split(a[k + 1..] + b, sep)
  {
    var k := IndexOf(a, sep);
    var s := a + b;
    IndexOfPrefix(a, sep, b);
    assert s[k + 1..] == a[k + 1..] + b;
    assert s[..k] == a[..k];
  }

  /** One separator between two separator-free parts gives exactly the two parts. */
  lemma SplitLastSeparator(a: string, sep: char, b: string)
    requires sep !in a && sep !in b
    ensures Split(a + ([sep] + b), sep) == [a, b]
  {
    var s := a + [sep] + b;
    AppendAssoc(a, [sep], b);
    IndexOfConcat(a, sep, b);
    assert s[|a| + 1..] == b;
    assert s[..|a|] == a;
    assert Split(s, sep) == [a] + Split(b, sep);
  }

  lemma AppendAssoc<T>(a: seq<T>, b: seq<T>, c: seq<T>)
    ensures a + (b + c) == (a + b) + c
  {
  }

  lemma ElementAfterPrefix<T>(xs: seq<T>, prefix: seq<T>, x: T, suffix: seq<T>)
    requires xs == prefix + ([x] + suffix)
    ensures |prefix| < |xs| && xs[|prefix|] == x
  {
  }

  lemma ElementOfAppend<T>(xs: seq<T>, a: seq<T>, b: seq<T>, i: nat)
    requires xs == a + b && i < |xs|
    ensures i < |a| ==> xs[i] == a[i]
    ensures |a| <= i ==> i - |a| < |b| && xs[i] == b[i - |a|]
  {
  }

  lemma IndexOfPrefix(a: string, c: char, b: string)
    requires c in a
    ensures c in a + b && IndexOf(a + b, c) == IndexOf(a, c)
  {
    var k := IndexOf(a, c);
    var s := a + b;
    assert s[k] == c;
    assert s[..k] == a[..k];
  }

  function DigitChar(d: nat): char
    requires d < 10
  {
    "0123456789"[d]
  }

  function DigitValue(c: char): nat {
    if '0' <= c <= '9' then c as int - '0' as int else 0
  }

  /** `str(n)` for a natural number. */
  function NatToString(n: nat): (r: string)
    ensures |r| >= 1
    ensures forall i :: 0 <= i < |r| ==> '0' <= r[i] <= '9'
  {
    if n < 10 then [DigitChar(n)] else NatToString(n / 10) + [DigitChar(n % 10)]
  }

  /** `int(s)` for a string of decimal digits. */
  function ParseNat(s: string): nat {
    if s == [] then 0 else ParseNat(s[..|s| - 1]) * 10 + DigitValue(s[|s| - 1])
  }

  /** Reading back a rendered number gives the number. */
  lemma {:induction false} ParseNatToString(n: nat)
    ensures ParseNat(NatToString(n)) == n
  {
    if n >= 10 {
      var s := NatToString(n);
      assert s[..|s| - 1] == NatToString(n / 10);
      ParseNatToString(n / 10);
      DigitRoundTrip(n % 10);
    } else {
      DigitRoundTrip(n);
    }
  }

  lemma DigitRoundTrip(d: nat)
    requires d < 10
    ensures DigitValue(DigitChar(d)) == d
  {
  }

  /** `a <= b` on Python strings: code-point lexicographic order. */
  predicate LexLe(a: string, b: string) {
    a == [] || (b != [] && (a[0] < b[0] || (a[0] == b[0] && LexLe(a[1..], b[1..]))))
  }

  lemma {:induction false} LexLeTotal(a: string, b: string)
    ensures LexLe(a, b) || LexLe(b, a)
  {
    if a != [] && b != [] && a[0] == b[0] {
      LexLeTotal(a[1..], b[1..]);
    }
  }

  lemma {:induction false} LexLeTrans(a: string, b: string, c: string)
    requires LexLe(a, b) && LexLe(b, c)
    ensures LexLe(a, c)
  {
    if a != [] && b != [] && c != [] && a[0] == b[0] == c[0] {
      LexLeTrans(a[1..], b[1..], c[1..]);
    }
  }

  lemma {:induction false} LexLeAntisym(a: string, b: string)
    requires LexLe(a, b) && LexLe(b, a)
    ensures a == b
  {
    if a != [] && b != [] {
      LexLeAntisym(a[1..], b[1..]);
      assert a == [a[0]] + a[1..];
      assert b == [b[0]] + b[1..];
    }
  }

  predicate Sorted(xs: seq<string>) {
    forall i :: 0 <= i < |xs| - 1 ==> LexLe(xs[i], xs[i + 1])
  }

  function Insert(x: string, xs: seq<string>): (r: seq<string>)
    requires Sorted(xs)
    ensures Sorted(r)
    ensures multiset(r) == multiset(xs) + multiset{x}
    ensures r[0] == x || (xs != [] && r[0] == xs[0])
  {
    if xs == [] then [x]
    else if LexLe(x, xs[0]) then [x] + xs
    else
      LexLeTotal(x, xs[0]);
      var tail := Insert(x, xs[1..]);
      assert xs == [xs[0]] + xs[1..];
      [xs[0]] + tail
  }

  /** `sorted(xs)`: the strings of `xs` in ascending order. */
  function SortStrings(xs: seq<string>): (r: seq<string>)
    ensures Sorted(r)
    ensures multiset(r) == multiset(xs)
  {
    if xs == [] then []
    else
      assert xs == [xs[0]] + xs[1..];
      Insert(xs[0], SortStrings(xs[1..]))
  }

  /** Adjacent order gives order between any two positions. */
  lemma {:induction false} SortedPairs(xs: seq<string>, i: nat, j: nat)
    requires Sorted(xs) && i <= j < |xs|
    ensures LexLe(xs[i], xs[j])
    decreases j - i
  {
    if i == j {
      LexLeRefl(xs[i]);
    } else {
      SortedPairs(xs, i + 1, j);
      LexLeTrans(xs[i], xs[i + 1], xs[j]);
    }
  }

  lemma {:induction false} LexLeRefl(a: string)
    ensures LexLe(a, a)
  {
    if a != [] {
      LexLeRefl(a[1..]);
    }
  }
}
