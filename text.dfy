/** The pieces of Python's `str` that the helpers use to build SQL text, URLs and
    paths: `split`, `join`, `strip`, `replace` of one character, `lower`, `str()`
    of an integer and `os.path.join`/`os.path.basename` on POSIX paths. */
module Text {
  import opened Wrappers

  /** Concatenation regrouped; loops that build a list call it to line the
      part built so far up with what remains. */
  lemma Regroup<T>(a: seq<T>, b: seq<T>, c: seq<T>)
    ensures a + (b + c) == (a + b) + c
  {
  }

  // ---------------------------------------------------------------------------
  // sep.join(xs) and s.split(c)
  // ---------------------------------------------------------------------------

  /** Python's `sep.join(xs)`. */
  function Join(sep: string, xs: seq<string>): string
  {
    if |xs| == 0 then ""
    else if |xs| == 1 then xs[0]
    else xs[0] + sep + Join(sep, xs[1..])
  }

  /** Python's `s.split(c)` for a one-character separator: every segment,
      including empty ones, so that there is always at least one. */
  function Split(s: string, c: char): (parts: seq<string>)
    ensures |parts| >= 1
    ensures |parts| >= 2 <==> c in s
  {
    if |s| == 0 then [""]
    else
      var rest := Split(s[1..], c);
      if s[0] == c then [""] + rest else [[s[0]] + rest[0]] + rest[1..]
  }

  /** Putting a character in front of the first segment puts it in front of the
      joined string. */
  lemma JoinConsFirst(sep: string, x: char, parts: seq<string>)
    requires |parts| >= 1
    ensures Join(sep, [[x] + parts[0]] + parts[1..]) == [x] + Join(sep, parts)
  {
    var glued := [[x] + parts[0]] + parts[1..];
    if |parts| > 1 {
      assert glued[1..] == parts[1..];
      assert Join(sep, glued) == ([x] + parts[0]) + sep + Join(sep, parts[1..]);
    }
  }

  /** Joining the segments of a split with the separator gives back the string. */
  lemma {:induction false} JoinSplit(s: string, c: char)
    ensures Join([c], Split(s, c)) == s
  {
    if |s| > 0 {
      var rest := Split(s[1..], c);
      JoinSplit(s[1..], c);
      if s[0] == c {
        assert Split(s, c) == [""] + rest;
        assert ([""] + rest)[1..] == rest;
      } else {
        assert Split(s, c) == [[s[0]] + rest[0]] + rest[1..];
        JoinConsFirst([c], s[0], rest);
        assert s == [s[0]] + s[1..];
      }
    }
  }

  /** No segment of a split contains the separator. */
  lemma {:induction false} SplitSegmentsFree(s: string, c: char)
    ensures forall k :: 0 <= k < |Split(s, c)| ==> c !in Split(s, c)[k]
  {
    if |s| > 0 {
      SplitSegmentsFree(s[1..], c);
    }
  }

  /** A string without the separator splits into itself alone. */
  lemma {:induction false} SplitWithoutSeparator(s: string, c: char)
    requires c !in s
    ensures Split(s, c) == [s]
  {
    if |s| > 0 {
      assert c !in s[1..];
      SplitWithoutSeparator(s[1..], c);
      assert [s[0]] + s[1..] == s;
    }
  }

  /** Splitting `a + c + b`, where `a` holds no separator, yields `a` followed by
      the segments of `b`. */
  lemma {:induction false} SplitAtSeparator(a: string, c: char, b: string)
    requires c !in a
    ensures Split(a + [c] + b, c) == [a] + Split(b, c)
  {
    if |a| == 0 {
      assert a + [c] + b == [c] + b;
      assert ([c] + b)[1..] == b;
    } else {
      var s := a + [c] + b;
      assert s[1..] == a[1..] + [c] + b;
      assert c !in a[1..];
      SplitAtSeparator(a[1..], c, b);
      assert [a[0]] + a[1..] == a;
    }
  }

  /** Joining non-empty strings gives the empty string only for an empty list. */
  lemma {:induction false} JoinEmpty(sep: string, xs: seq<string>)
    requires forall k :: 0 <= k < |xs| ==> xs[k] != ""
    ensures Join(sep, xs) == "" <==> |xs| == 0
  {
    if |xs| > 1 {
      assert |Join(sep, xs)| >= |xs[0]|;
    }
  }

  /** A character in neither the separator nor any element is not in the join. */
  lemma {:induction false} JoinAvoids(sep: string, xs: seq<string>, ch: char)
    requires ch !in sep
    requires forall k :: 0 <= k < |xs| ==> ch !in xs[k]
    ensures ch !in Join(sep, xs)
  {
    if |xs| > 1 {
      JoinAvoids(sep, xs[1..], ch);
    }
  }

  /** The text before the first `c` and the text after it, or `None` when `c`
      does not occur. */
  function SplitAtFirst(s: string, c: char): Option<(string, string)>
  {
    if |s| == 0 then None
    else if s[0] == c then Some(("", s[1..]))
    else match SplitAtFirst(s[1..], c)
      case None => None
      case Some(p) => Some(([s[0]] + p.0, p.1))
  }

  /** `SplitAtFirst` undoes gluing two strings with a separator the first does not
      contain. */
  lemma {:induction false} SplitAtFirstGlued(a: string, c: char, b: string)
    requires c !in a
    ensures SplitAtFirst(a + [c] + b, c) == Some((a, b))
  {
    if |a| == 0 {
      assert a + [c] + b == [c] + b;
      assert ([c] + b)[1..] == b;
    } else {
      var s := a + [c] + b;
      assert s[1..] == a[1..] + [c] + b;
      assert c !in a[1..];
      SplitAtFirstGlued(a[1..], c, b);
      assert [a[0]] + a[1..] == a;
    }
  }

  /** A prefix is removed exactly when present. */
  function DropPrefix(prefix: string, s: string): Option<string>
  {
    if prefix <= s then Some(s[|prefix|..]) else None
  }

  /** A suffix is removed exactly when present. */
  function DropSuffix(s: string, suffix: string): Option<string>
  {
    if |suffix| <= |s| && s[|s| - |suffix|..] == suffix then Some(s[..|s| - |suffix|]) else None
  }

  lemma DropPrefixGlued(prefix: string, s: string)
    ensures DropPrefix(prefix, prefix + s) == Some(s)
  {
    assert prefix <= prefix + s;
    assert (prefix + s)[|prefix|..] == s;
  }

  lemma DropSuffixGlued(s: string, suffix: string)
    ensures DropSuffix(s + suffix, suffix) == Some(s)
  {
    var t := s + suffix;
    assert t[|t| - |suffix|..] == suffix;
    assert t[..|t| - |suffix|] == s;
  }

  // ---------------------------------------------------------------------------
  // s.strip(chars)
  // ---------------------------------------------------------------------------

  function StripLeft(s: string, cs: set<char>): string
  {
    if |s| > 0 && s[0] in cs then StripLeft(s[1..], cs) else s
  }

  function StripRight(s: string, cs: set<char>): string
  {
    if |s| > 0 && s[|s| - 1] in cs then StripRight(s[..|s| - 1], cs) else s
  }

  /** Python's `s.strip(chars)`: drops every leading and trailing character that
      belongs to `cs`. */
  function Strip(s: string, cs: set<char>): string
  {
    StripRight(StripLeft(s, cs), cs)
  }

  /** Every character of `s` belongs to `cs`. */
  predicate AllIn(s: string, cs: set<char>)
  {
    forall k :: 0 <= k < |s| ==> s[k] in cs
  }

  /** `s` neither starts nor ends with a character of `cs`. */
  predicate Trimmed(s: string, cs: set<char>)
  {
    |s| == 0 || (s[0] !in cs && s[|s| - 1] !in cs)
  }

  lemma {:induction false} StripLeftOver(l: string, t: string, cs: set<char>)
    requires AllIn(l, cs)
    requires |t| == 0 || t[0] !in cs
    ensures StripLeft(l + t, cs) == t
  {
    if |l| > 0 {
      assert (l + t)[1..] == l[1..] + t;
      StripLeftOver(l[1..], t, cs);
    } else {
      assert l + t == t;
    }
  }

  lemma {:induction false} StripRightOver(t: string, r: string, cs: set<char>)
    requires AllIn(r, cs)
    requires |t| == 0 || t[|t| - 1] !in cs
    ensures StripRight(t + r, cs) == t
  {
    if |r| > 0 {
      assert (t + r)[..|t + r| - 1] == t + r[..|r| - 1];
      StripRightOver(t, r[..|r| - 1], cs);
    } else {
      assert t + r == t;
    }
  }

  /** `strip` removes exactly a surrounding run of stripped characters: wrapping
      a trimmed string in any such runs and stripping gives it back. */
  lemma StripWrapped(l: string, x: string, r: string, cs: set<char>)
    requires AllIn(l, cs) && AllIn(r, cs)
    requires Trimmed(x, cs)
    ensures Strip(l + x + r, cs) == x
  {
    if |x| == 0 {
      assert l + x + r == (l + r) + "";
      assert AllIn(l + r, cs);
      StripLeftOver(l + r, "", cs);
    } else {
      assert l + x + r == l + (x + r);
      StripLeftOver(l, x + r, cs);
      StripRightOver(x, r, cs);
    }
  }

  /** What `strip` leaves never starts or ends with a stripped character. */
  lemma {:induction false} StripTrims(s: string, cs: set<char>)
    ensures Trimmed(Strip(s, cs), cs)
  {
    StripLeftTrims(s, cs);
    StripRightTrims(StripLeft(s, cs), cs);
  }

  lemma {:induction false} StripLeftTrims(s: string, cs: set<char>)
    ensures |StripLeft(s, cs)| == 0 || StripLeft(s, cs)[0] !in cs
  {
    if |s| > 0 && s[0] in cs {
      StripLeftTrims(s[1..], cs);
    }
  }

  lemma {:induction false} StripRightTrims(s: string, cs: set<char>)
    requires |s| == 0 || s[0] !in cs
    ensures Trimmed(StripRight(s, cs), cs)
  {
    if |s| > 0 && s[|s| - 1] in cs {
      var t := s[..|s| - 1];
      StripRightTrims(t, cs);
    }
  }

  // ---------------------------------------------------------------------------
  // s.replace(ch, '') and s.lower()
  // ---------------------------------------------------------------------------

  /** Python's `s.replace(ch, '')`: every occurrence of `ch` removed. */
  function RemoveChar(s: string, ch: char): string
  {
    if |s| == 0 then ""
    else (if s[0] == ch then "" else [s[0]]) + RemoveChar(s[1..], ch)
  }

  lemma {:induction false} RemoveCharConcat(a: string, b: string, ch: char)
    ensures RemoveChar(a + b, ch) == RemoveChar(a, ch) + RemoveChar(b, ch)
  {
    if |a| > 0 {
      assert (a + b)[1..] == a[1..] + b;
      RemoveCharConcat(a[1..], b, ch);
    } else {
      assert a + b == b;
    }
  }

  lemma {:induction false} RemoveCharGone(s: string, ch: char)
    ensures ch !in RemoveChar(s, ch)
  {
    if |s| > 0 {
      RemoveCharGone(s[1..], ch);
    }
  }

  lemma {:induction false} RemoveCharAbsent(s: string, ch: char)
    requires ch !in s
    ensures RemoveChar(s, ch) == s
  {
    if |s| > 0 {
      assert ch !in s[1..];
      RemoveCharAbsent(s[1..], ch);
      assert [s[0]] + s[1..] == s;
    }
  }

  /** A character other than the removed one is kept. */
  lemma {:induction false} RemoveCharKeeps(s: string, ch: char, other: char)
    requires other != ch
    ensures other in RemoveChar(s, ch) <==> other in s
  {
    if |s| > 0 {
      RemoveCharKeeps(s[1..], ch, other);
      assert other in s <==> s[0] == other || other in s[1..];
    }
  }

  /** The strings one after another, as `''.join(xs)` or a file written line by line. */
  function Concat(xs: seq<string>): string
  {
    if |xs| == 0 then "" else xs[0] + Concat(xs[1..])
  }

  /** How often `ch` occurs in `s` (Python's `s.count(ch)`). */
  function CountChar(s: string, ch: char): nat
  {
    if |s| == 0 then 0 else (if s[0] == ch then 1 else 0) + CountChar(s[1..], ch)
  }

  lemma {:induction false} CountCharConcat(a: string, b: string, ch: char)
    ensures CountChar(a + b, ch) == CountChar(a, ch) + CountChar(b, ch)
  {
    if |a| > 0 {
      assert (a + b)[1..] == a[1..] + b;
      CountCharConcat(a[1..], b, ch);
    } else {
      assert a + b == b;
    }
  }

  lemma {:induction false} CountCharAbsent(s: string, ch: char)
    requires ch !in s
    ensures CountChar(s, ch) == 0
  {
    if |s| > 0 {
      assert ch !in s[1..];
      CountCharAbsent(s[1..], ch);
    }
  }

  function LowerChar(ch: char): char
  {
    if 'A' <= ch <= 'Z' then (ch as int + 32) as char else ch
  }

  /** Python's `s.lower()`, restricted to ASCII letters. */
  function Lower(s: string): (r: string)
    ensures |r| == |s|
  {
    seq(|s|, k requires 0 <= k < |s| => LowerChar(s[k]))
  }

  // ---------------------------------------------------------------------------
  // str(n) for integers, and reading digits back
  // ---------------------------------------------------------------------------

  predicate IsDigit(ch: char)
  {
    '0' <= ch <= '9'
  }

  predicate IsDigits(s: string)
  {
    forall k :: 0 <= k < |s| ==> IsDigit(s[k])
  }

  function DigitChar(d: nat): char
    requires d < 10
  {
    ('0' as int + d) as char
  }

  function DigitValue(ch: char): nat
    requires IsDigit(ch)
  {
    ch as int - '0' as int
  }

  /** Python's `str(n)` for `n >= 0`: decimal digits, no leading zero. */
  function NatToString(n: nat): string
  {
    if n < 10 then [DigitChar(n)] else NatToString(n / 10) + [DigitChar(n % 10)]
  }

  /** Python's `str(n)`. */
  function IntToString(n: int): string
  {
    if n < 0 then "-" + NatToString(-n) else NatToString(n)
  }

  /** The value of a string of decimal digits (the empty string reads as 0). */
  function ParseNat(s: string): nat
    requires IsDigits(s)
  {
    if |s| == 0 then 0 else ParseNat(s[..|s| - 1]) * 10 + DigitValue(s[|s| - 1])
  }

  /** Reading back an integer's decimal form. */
  function ParseInt(s: string): Option<int>
  {
    if |s| > 0 && s[0] == '-' then
      (if |s| > 1 && IsDigits(s[1..]) then Some(-(ParseNat(s[1..]) as int)) else None)
    else if |s| > 0 && IsDigits(s) then Some(ParseNat(s) as int)
    else None
  }

  /** `str(n)` of a natural number is a non-empty run of digits, without a
      leading zero, that reads back as `n`. */
  lemma {:induction false} NatToStringRoundTrip(n: nat)
    ensures IsDigits(NatToString(n)) && |NatToString(n)| >= 1
    ensures NatToString(n)[0] != '0' || n == 0
    ensures ParseNat(NatToString(n)) == n
  {
    if n >= 10 {
      NatToStringRoundTrip(n / 10);
      var s := NatToString(n / 10) + [DigitChar(n % 10)];
      assert s[..|s| - 1] == NatToString(n / 10);
    }
  }

  /** `str(n)` of any integer reads back as `n`. */
  lemma IntToStringRoundTrip(n: int)
    ensures ParseInt(IntToString(n)) == Some(n)
  {
    if n < 0 {
      NatToStringRoundTrip(-n);
      assert IntToString(n)[1..] == NatToString(-n);
    } else {
      NatToStringRoundTrip(n);
    }
  }

  /** A leading zero does not change the value of a string of digits. */
  lemma {:induction false} ParseNatLeadingZero(s: string)
    requires IsDigits(s)
    ensures IsDigits("0" + s) && ParseNat("0" + s) == ParseNat(s)
  {
    if |s| > 0 {
      var t := "0" + s;
      assert t[..|t| - 1] == "0" + s[..|s| - 1];
      ParseNatLeadingZero(s[..|s| - 1]);
    }
  }

  /** `str(n)` has two digits for `10 <= n < 100`. */
  lemma NatToStringTwoDigits(n: nat)
    requires 10 <= n < 100
    ensures |NatToString(n)| == 2
  {
  }

  // ---------------------------------------------------------------------------
  // os.path.join / os.path.basename on POSIX
  // ---------------------------------------------------------------------------

  /** `os.path.join(a, b)` on POSIX: an absolute `b` replaces `a`; otherwise a
      slash is inserted unless `a` is empty or already ends with one. */
  function JoinPath(a: string, b: string): string
  {
    if |b| > 0 && b[0] == '/' then b
    else if |a| == 0 || a[|a| - 1] == '/' then a + b
    else a + "/" + b
  }

  /** `os.path.basename(p)`: the text after the last slash. */
  function BaseName(p: string): string
  {
    var parts := Split(p, '/');
    parts[|parts| - 1]
  }

  /** The last segment of a split is the text after the last separator. */
  lemma {:induction false} SplitLastSegment(x: string, c: char, b: string)
    requires c !in b
    ensures var parts := Split(x + [c] + b, c); parts[|parts| - 1] == b
  {
    if |x| == 0 {
      assert x + [c] + b == "" + [c] + b;
      SplitAtSeparator("", c, b);
      SplitWithoutSeparator(b, c);
    } else {
      var s := x + [c] + b;
      assert s[1..] == x[1..] + [c] + b;
      assert c in s[1..];
      SplitLastSegment(x[1..], c, b);
    }
  }

  /** A character missing from a string is missing from every segment of its
      split. */
  lemma {:induction false} SplitSegmentsWithout(s: string, c: char, d: char)
    requires d !in s
    ensures forall k :: 0 <= k < |Split(s, c)| ==> d !in Split(s, c)[k]
  {
    if |s| > 0 {
      assert d !in s[1..];
      SplitSegmentsWithout(s[1..], c, d);
    }
  }

  /** The base name of a directory joined with a name without slashes is that
      name. */
  lemma BaseNameOfJoin(dir: string, name: string)
    requires '/' !in name
    ensures BaseName(JoinPath(dir, name)) == name
  {
    if |dir| == 0 {
      assert JoinPath(dir, name) == name;
      SplitWithoutSeparator(name, '/');
    } else if dir[|dir| - 1] == '/' {
      var d := dir[..|dir| - 1];
      assert dir + name == d + ['/'] + name;
      SplitLastSegment(d, '/', name);
    } else {
      assert dir + "/" + name == dir + ['/'] + name;
      SplitLastSegment(dir, '/', name);
    }
  }

  /** A base name holds no slash. */
  lemma BaseNameHasNoSlash(p: string)
    ensures '/' !in BaseName(p)
  {
    SplitSegmentsFree(p, '/');
  }
}
