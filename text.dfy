/**
 * String and list helpers that stand for the Python built-ins the SPF code
 * calls: `str.join`, `str.split` / `re.split` over single characters,
 * `str.replace`, `str.index`, negative slicing and `"%d"` formatting.
 */
module Text {

  /** `sep.join(parts)`. */
  function Join(sep: string, parts: seq<string>): (r: string)
    decreases |parts|
  {
    if |parts| == 0 then ""
    else if |parts| == 1 then parts[0]
    else parts[0] + sep + Join(sep, parts[1..])
  }

  /**
   * Cuts `s` at every character that occurs in `delims`, keeping empty
   * labels. This is `re.split` on an alternation of escaped single
   * characters, and also `str.split(c)` when `delims == [c]`.
   */
  function Split(s: string, delims: string): (labels: seq<string>)
    ensures |labels| >= 1
    decreases |s|
  {
    if s == [] then [""]
    else
      var rest := Split(s[1..], delims);
      if s[0] in delims then [""] + rest
      else [[s[0]] + rest[0]] + rest[1..]
  }

  /** Number of characters of `s` that occur in `delims`. */
  function Count(s: string, delims: string): (r: nat)
    decreases |s|
  {
    if s == [] then 0
    else (if s[0] in delims then 1 else 0) + Count(s[1..], delims)
  }

  /** No character of `s` occurs in `delims`. */
  predicate Avoids(s: string, delims: string)
  {
    forall k :: 0 <= k < |s| ==> s[k] !in delims
  }

  /** `s` with every character that occurs in `delims` replaced by `c`. */
  function Substitute(s: string, delims: string, c: char): (r: string)
    decreases |s|
  {
    if s == [] then ""
    else [if s[0] in delims then c else s[0]] + Substitute(s[1..], delims, c)
  }

  /** Splitting yields one more label than there are delimiter characters. */
  lemma {:induction false} SplitCount(s: string, delims: string)
    ensures |Split(s, delims)| == Count(s, delims) + 1
    decreases |s|
  {
    if s != [] {
      SplitCount(s[1..], delims);
    }
  }

  /** No label of a split contains a delimiter character. */
  lemma {:induction false} SplitLabelsAvoid(s: string, delims: string)
    ensures forall i :: 0 <= i < |Split(s, delims)| ==> Avoids(Split(s, delims)[i], delims)
    decreases |s|
  {
    if s != [] {
      SplitLabelsAvoid(s[1..], delims);
      var rest := Split(s[1..], delims);
      if s[0] !in delims {
        var first := [s[0]] + rest[0];
        assert Avoids(rest[0], delims);
        forall k | 0 <= k < |first| ensures first[k] !in delims {
          if k > 0 { assert first[k] == rest[0][k - 1]; }
        }
      }
    }
  }

  lemma JoinCons(sep: string, head: string, tail: seq<string>)
    requires |tail| >= 1
    ensures Join(sep, [head] + tail) == head + sep + Join(sep, tail)
  {
    assert ([head] + tail)[1..] == tail;
  }

  lemma JoinTwo(sep: string, a: string, b: string)
    ensures Join(sep, [a, b]) == a + sep + b
  {
    assert [a, b][1..] == [b];
  }

  lemma JoinExtendHead(sep: string, c: char, head: string, tail: seq<string>)
    ensures Join(sep, [[c] + head] + tail) == [c] + Join(sep, [head] + tail)
  {
    if |tail| == 0 {
      assert [[c] + head] + tail == [[c] + head];
      assert [head] + tail == [head];
    } else {
      JoinCons(sep, [c] + head, tail);
      JoinCons(sep, head, tail);
    }
  }

  /**
   * Joining the labels of a split with one character puts that character
   * wherever a delimiter character stood, and changes nothing else.
   */
  lemma {:induction false} JoinSplit(s: string, delims: string, c: char)
    ensures Join([c], Split(s, delims)) == Substitute(s, delims, c)
    decreases |s|
  {
    if s != [] {
      JoinSplit(s[1..], delims, c);
      var rest := Split(s[1..], delims);
      if s[0] in delims {
        JoinCons([c], "", rest);
      } else {
        assert rest == [rest[0]] + rest[1..];
        JoinExtendHead([c], s[0], rest[0], rest[1..]);
      }
    }
  }

  /** Substituting a delimiter by itself is the identity. */
  lemma {:induction false} SubstituteSelf(s: string, c: char)
    ensures Substitute(s, [c], c) == s
    decreases |s|
  {
    if s != [] {
      SubstituteSelf(s[1..], c);
    }
  }

  /**
   * Splitting a joined list gives the list back when the joining character
   * is a delimiter and no part holds a delimiter character.
   */
  lemma {:induction false} SplitJoin(parts: seq<string>, delims: string, c: char)
    requires |parts| >= 1 && c in delims
    requires forall i :: 0 <= i < |parts| ==> Avoids(parts[i], delims)
    ensures Split(Join([c], parts), delims) == parts
    decreases |parts|
  {
    if |parts| == 1 {
      SplitAvoiding(parts[0], delims);
    } else {
      JoinCons([c], parts[0], parts[1..]);
      SplitJoin(parts[1..], delims, c);
      SplitPrefix(parts[0], delims, [c] + Join([c], parts[1..]));
      assert ([c] + Join([c], parts[1..]))[1..] == Join([c], parts[1..]);
      assert parts[0] + [c] + Join([c], parts[1..]) == parts[0] + ([c] + Join([c], parts[1..]));
      assert parts == [parts[0]] + parts[1..];
    }
  }

  /** A string without delimiter characters splits into itself. */
  lemma {:induction false} SplitAvoiding(s: string, delims: string)
    requires Avoids(s, delims)
    ensures Split(s, delims) == [s]
    decreases |s|
  {
    if s != [] {
      assert s[0] !in delims;
      SplitAvoiding(s[1..], delims);
      assert [s[0]] + s[1..] == s;
    }
  }

  /**
   * A delimiter-free prefix glues onto the first label of what follows it;
   * a following delimiter starts a new label.
   */
  lemma {:induction false} SplitPrefix(p: string, delims: string, t: string)
    requires Avoids(p, delims)
    requires |t| >= 1 && t[0] in delims
    ensures Split(p + t, delims) == [p] + Split(t[1..], delims)
    decreases |p|
  {
    if p == [] {
      assert p + t == t;
    } else {
      SplitPrefix(p[1..], delims, t);
      assert (p + t)[1..] == p[1..] + t;
      assert [p[0]] + p[1..] == p;
    }
  }

  /** `s[-n:]` for a positive `n`: the last `n` items, or all of them if there are fewer. */
  function LastN<T>(s: seq<T>, n: nat): (r: seq<T>)
    requires n > 0
  {
    if n >= |s| then s else s[|s| - n..]
  }

  /** `list.reverse()` as a value. */
  function Reversed<T>(s: seq<T>): (r: seq<T>)
    ensures |r| == |s|
    ensures forall i :: 0 <= i < |s| ==> r[i] == s[|s| - 1 - i]
    decreases |s|
  {
    if s == [] then [] else Reversed(s[1..]) + [s[0]]
  }

  /** `str.replace(pat, rep)` for a non-empty `pat`: leftmost, non-overlapping. */
  function Replace(s: string, pat: string, rep: string): (r: string)
    requires pat != []
    decreases |s|
  {
    if pat <= s then rep + Replace(s[|pat|..], pat, rep)
    else if s == [] then ""
    else [s[0]] + Replace(s[1..], pat, rep)
  }

  /** Replacing one character distributes over concatenation. */
  lemma {:induction false} ReplaceCharAppend(a: string, b: string, c: char, rep: string)
    ensures Replace(a + b, [c], rep) == Replace(a, [c], rep) + Replace(b, [c], rep)
    decreases |a|
  {
    if a == [] {
      assert a + b == b;
    } else {
      ReplaceCharAppend(a[1..], b, c, rep);
      assert (a + b)[1..] == a[1..] + b;
      assert [c] <= a + b <==> [c] <= a;
    }
  }

  /** `str.index(c)`: the first position of `c`. */
  function IndexOf(s: string, c: char): (i: nat)
    requires c in s
    ensures i < |s| && s[i] == c && c !in s[..i]
    decreases |s|
  {
    if s[0] == c then 0 else 1 + IndexOf(s[1..], c)
  }

  /** A position holding `c` with no `c` before it is the first position of `c`. */
  lemma {:induction false} IndexOfAt(s: string, c: char, i: nat)
    requires i < |s| && s[i] == c && c !in s[..i]
    ensures IndexOf(s, c) == i
    decreases i
  {
    if i > 0 {
      assert s[0] == s[..i][0];
      assert s[1..][..i - 1] == s[..i][1..];
      IndexOfAt(s[1..], c, i - 1);
    }
  }

  /** The text before the first `c`, or all of `s` when there is none. */
  function Before(s: string, c: char): (r: string)
  {
    if c in s then s[..IndexOf(s, c)] else s
  }

  /** The text after the first `c`. */
  function After(s: string, c: char): (r: string)
    requires c in s
  {
    s[IndexOf(s, c) + 1..]
  }

  /** The first label of `str.split(c)` is the text before the first `c`. */
  lemma {:induction false} SplitFirst(s: string, c: char)
    ensures Split(s, [c])[0] == Before(s, c)
    decreases |s|
  {
    if s != [] {
      SplitFirst(s[1..], c);
      if s[0] != c && c in s[1..] {
        assert s[1..][..IndexOf(s[1..], c)] == s[1..IndexOf(s, c)];
      }
    }
  }

  /** The labels after the first of `str.split(c)` are the labels of the text after the first `c`. */
  lemma {:induction false} SplitAfterFirst(s: string, c: char)
    requires c in s
    ensures Split(s, [c])[1..] == Split(After(s, c), [c])
    decreases |s|
  {
    if s[0] != c {
      SplitAfterFirst(s[1..], c);
      assert After(s[1..], c) == After(s, c);
    }
  }

  /** The second label of `str.split(c)`: the text between the first and the second `c`. */
  lemma SplitSecond(s: string, c: char)
    requires c in s
    ensures |Split(s, [c])| >= 2
    ensures Split(s, [c])[1] == Before(After(s, c), c)
  {
    SplitAfterFirst(s, c);
    SplitFirst(After(s, c), c);
  }

  predicate IsDigit(c: char)
  {
    '0' <= c <= '9'
  }

  predicate AllDigits(s: string)
  {
    forall k :: 0 <= k < |s| ==> IsDigit(s[k])
  }

  function DigitChar(d: nat): (c: char)
    requires d < 10
    ensures IsDigit(c) && c as int - '0' as int == d
  {
    "0123456789"[d]
  }

  /** `"%d" % n`. */
  function Decimal(n: nat): (r: string)
    decreases n
  {
    if n < 10 then [DigitChar(n)] else Decimal(n / 10) + [DigitChar(n % 10)]
  }

  /** The value of a run of decimal digits (0 for the empty run). */
  function DigitsValue(s: string): (r: nat)
    requires AllDigits(s)
    decreases |s|
  {
    if s == [] then 0
    else DigitsValue(s[..|s| - 1]) * 10 + (s[|s| - 1] as int - '0' as int)
  }

  /** Length of the longest run of digits at the start of `s`. */
  function DigitRun(s: string): (n: nat)
    ensures n <= |s| && AllDigits(s[..n])
    ensures n < |s| ==> !IsDigit(s[n])
    decreases |s|
  {
    if s == [] || !IsDigit(s[0]) then 0
    else
      var n := 1 + DigitRun(s[1..]);
      assert s[..n] == [s[0]] + s[1..][..n - 1];
      n
  }

  /** Decimal text is a non-empty run of digits that reads back as the number. */
  lemma {:induction false} DecimalDigits(n: nat)
    ensures |Decimal(n)| >= 1 && AllDigits(Decimal(n))
    ensures DigitsValue(Decimal(n)) == n
    decreases n
  {
    if n >= 10 {
      DecimalDigits(n / 10);
      var s := Decimal(n);
      assert s[..|s| - 1] == Decimal(n / 10);
    }
  }

  /** Decimal text holds no character other than digits. */
  lemma DecimalAvoids(n: nat, c: char)
    requires !IsDigit(c)
    ensures c !in Decimal(n)
  {
    DecimalDigits(n);
    forall k | 0 <= k < |Decimal(n)| ensures Decimal(n)[k] != c {
      assert IsDigit(Decimal(n)[k]);
    }
  }

  /** Reading the digit run of a decimal followed by a non-digit gives the number back. */
  lemma DecimalRun(n: nat, rest: string)
    requires rest == [] || !IsDigit(rest[0])
    ensures DigitRun(Decimal(n) + rest) == |Decimal(n)|
    ensures (Decimal(n) + rest)[..|Decimal(n)|] == Decimal(n)
    ensures (Decimal(n) + rest)[|Decimal(n)|..] == rest
  {
    DecimalDigits(n);
    DigitRunOver(Decimal(n), rest);
  }

  lemma {:induction false} DigitRunOver(d: string, rest: string)
    requires AllDigits(d)
    requires rest == [] || !IsDigit(rest[0])
    ensures DigitRun(d + rest) == |d|
    decreases |d|
  {
    if d == [] {
      assert d + rest == rest;
    } else {
      DigitRunOver(d[1..], rest);
      assert (d + rest)[1..] == d[1..] + rest;
    }
  }
}
