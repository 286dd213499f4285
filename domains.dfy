/**
 * Domain specs (section 7.1 of RFC 7208): a sequence of literal text and
 * macros, written out in escaped literal form or expanded against a query.
 */
module Domains {
  import opened Wrappers
  import opened Text
  import opened Queries
  import opened Macros

  datatype Fragment = Literal(text: string) | Placeholder(macro: Macro)

  datatype Domain = Domain(fragments: seq<Fragment>)

  /** The longest text an expansion may have. */
  const MaxLength: nat := 253

  // ---------------------------------------------------------------------
  // Literal form

  /**
   * The escaping of a literal fragment as `Domain.__str__` chains it: double every
   * `%`, then turn `%%20` into `%-`, then every space into `%_`. The chain
   * equals the single left-to-right pass `EscapeToken`.
   */
  function EscapeLiteral(s: string): (r: string)
    ensures r == EscapeToken(s)
  {
    DoubledThenTwenty(s);
    PercentThenSpace(s);
    Replace(Replace(Replace(s, "%", "%%"), "%%20", "%-"), " ", "%_")
  }

  /**
   * A single left-to-right pass that writes `%20` as `%-`, `%` as `%%` and
   * space as `%_`.
   */
  function EscapeToken(s: string): (r: string)
    decreases |s|
  {
    if s == [] then ""
    else if "%20" <= s then "%-" + EscapeToken(s[3..])
    else if s[0] == '%' then "%%" + EscapeToken(s[1..])
    else if s[0] == ' ' then "%_" + EscapeToken(s[1..])
    else [s[0]] + EscapeToken(s[1..])
  }

  /** The same pass without the space rule: what the first two replacements give. */
  function EscapePercent(s: string): (r: string)
    decreases |s|
  {
    if s == [] then ""
    else if "%20" <= s then "%-" + EscapePercent(s[3..])
    else if s[0] == '%' then "%%" + EscapePercent(s[1..])
    else [s[0]] + EscapePercent(s[1..])
  }

  function Doubled(s: string): (r: string)
  {
    Replace(s, "%", "%%")
  }

  lemma DoubledCons(s: string)
    requires s != []
    ensures Doubled(s) == (if s[0] == '%' then "%%" else [s[0]]) + Doubled(s[1..])
  {
    assert "%" <= s <==> s[0] == '%';
  }

  /** A doubled text starts with `%` exactly when the original does, and then with `%%`. */
  lemma DoubledHead(t: string)
    requires t != []
    ensures |Doubled(t)| >= 2 || t[0] != '%'
    ensures Doubled(t)[0] == t[0] || (t[0] == '%' && Doubled(t)[..2] == "%%")
    ensures Doubled(t)[0] == '%' <==> t[0] == '%'
    ensures t[0] == '%' ==> Doubled(t)[..2] == "%%"
  {
    DoubledCons(t);
  }

  /** `20` can only start a doubled text that itself starts with `20`. */
  lemma DoubledTwenty(t: string)
    ensures "20" <= Doubled(t) ==> "20" <= t
  {
    if "20" <= Doubled(t) {
      DoubledTwentyHolds(t);
    }
  }

  lemma DoubledTwentyHolds(t: string)
    requires "20" <= Doubled(t)
    ensures "20" <= t
  {
    assert t != [];
    DoubledCons(t);
    assert Doubled(t)[0] == '2';
    assert t[0] == '2';
    assert Doubled(t)[1..] == Doubled(t[1..]);
    assert t[1..] != [];
    DoubledCons(t[1..]);
  }

  /** A common head does not change whether one text is a prefix of another. */
  lemma PrefixShift(p: string, x: string, y: string)
    ensures (p + x <= p + y) <==> (x <= y)
  {
    if p + x <= p + y {
      assert x == (p + x)[|p|..];
      assert (p + y)[|p|..|p| + |x|] == y[..|x|];
    }
  }

  /** The first two replacements of the chain make one pass of `EscapePercent`. */
  lemma {:induction false} DoubledThenTwenty(s: string)
    ensures Replace(Doubled(s), "%%20", "%-") == EscapePercent(s)
    decreases |s|
  {
    if s == [] {
    } else if "%20" <= s {
      DoubledCons(s);
      DoubledCons(s[1..]);
      DoubledCons(s[2..]);
      assert Doubled(s) == "%%20" + Doubled(s[3..]);
      DoubledThenTwenty(s[3..]);
    } else if s[0] == '%' {
      PercentStep(s);
      DoubledThenTwenty(s[1..]);
    } else {
      DoubledCons(s);
      assert (Doubled(s))[1..] == Doubled(s[1..]);
      DoubledThenTwenty(s[1..]);
    }
  }

  /** A `%` that does not start `%20` is doubled and left alone by the `%%20` replacement. */
  lemma PercentStep(s: string)
    requires s != [] && s[0] == '%' && !("%20" <= s)
    ensures Replace(Doubled(s), "%%20", "%-") == "%%" + Replace(Doubled(s[1..]), "%%20", "%-")
  {
    DoubledCons(s);
    var y := Doubled(s[1..]);
    assert Doubled(s) == "%%" + y;
    DoubledTwenty(s[1..]);
    assert s == "%" + s[1..];
    PrefixShift("%", "20", s[1..]);
    assert !("20" <= y);
    PrefixShift("%%", "20", y);
    assert "%%20" == "%%" + "20";
    assert !("%%20" <= "%%" + y);
    if s[1..] != [] {
      DoubledHead(s[1..]);
    }
    PrefixShift("%", "%20", y);
    assert "%%20" == "%" + "%20";
    assert !("%%20" <= "%" + y);
    assert ("%%" + y)[1..] == "%" + y;
    assert ("%" + y)[1..] == y;
  }

  /** The last replacement of the chain completes the single pass. */
  lemma {:induction false} PercentThenSpace(s: string)
    ensures Replace(EscapePercent(s), " ", "%_") == EscapeToken(s)
    decreases |s|
  {
    if s != [] {
      var head := if "%20" <= s then "%-" else if s[0] == '%' then "%%" else [s[0]];
      var rest := if "%20" <= s then s[3..] else s[1..];
      assert EscapePercent(s) == head + EscapePercent(rest);
      ReplaceCharAppend(head, EscapePercent(rest), ' ', "%_");
      PercentThenSpace(rest);
    }
  }

  function Prepend(p: string, o: Option<string>): (r: Option<string>)
  {
    if o.None? then None else Some(p + o.value)
  }

  /**
   * Decodes the escapes of section 7.1 of RFC 7208 in literal text: `%%` is
   * `%`, `%_` is a space, `%-` is `%20`; any other `%` is malformed.
   */
  function Unescape(t: string): (r: Option<string>)
    decreases |t|
  {
    if t == [] then Some("")
    else if t[0] != '%' then Prepend([t[0]], Unescape(t[1..]))
    else if |t| < 2 then None
    else if t[1] == '%' then Prepend("%", Unescape(t[2..]))
    else if t[1] == '_' then Prepend(" ", Unescape(t[2..]))
    else if t[1] == '-' then Prepend("%20", Unescape(t[2..]))
    else None
  }

  lemma {:induction false} UnescapeToken(s: string)
    ensures Unescape(EscapeToken(s)) == Some(s)
    ensures ' ' !in EscapeToken(s)
    decreases |s|
  {
    if s != [] {
      var rest := if "%20" <= s then s[3..] else s[1..];
      var head := if "%20" <= s then "%-" else if s[0] == '%' then "%%" else if s[0] == ' ' then "%_" else [s[0]];
      assert EscapeToken(s) == head + EscapeToken(rest);
      UnescapeToken(rest);
      var t := EscapeToken(s);
      if |head| == 2 {
        assert t[2..] == EscapeToken(rest);
        assert s == (if "%20" <= s then "%20" else [s[0]]) + rest;
      } else {
        assert t[1..] == EscapeToken(rest);
        assert s == [s[0]] + rest;
      }
    }
  }

  /**
   * A rendered literal decodes back to the fragment and holds no space, so
   * every `%` in it starts one of `%%`, `%_`, `%-`.
   */
  lemma EscapeRoundTrip(s: string)
    ensures Unescape(EscapeLiteral(s)) == Some(s)
    ensures ' ' !in EscapeLiteral(s)
  {
    UnescapeToken(s);
  }

  /** A literal with neither `%` nor space is written out unchanged. */
  lemma {:induction false} EscapePlain(s: string)
    requires '%' !in s && ' ' !in s
    ensures EscapeLiteral(s) == s
    decreases |s|
  {
    TokenPlain(s);
  }

  lemma {:induction false} TokenPlain(s: string)
    requires '%' !in s && ' ' !in s
    ensures EscapeToken(s) == s
    decreases |s|
  {
    if s != [] {
      assert s[0] in s;
      assert forall c :: c in s[1..] ==> c in s;
      TokenPlain(s[1..]);
      assert [s[0]] + s[1..] == s;
    }
  }

  function FragmentText(f: Fragment): (r: string)
  {
    match f
    case Literal(t) => EscapeLiteral(t)
    case Placeholder(m) => MacroText(m)
  }

  /** The literal forms of the fragments, one after another. */
  function FragmentsText(fs: seq<Fragment>): (r: string)
    decreases |fs|
  {
    if fs == [] then "" else FragmentsText(fs[..|fs| - 1]) + FragmentText(fs[|fs| - 1])
  }

  function DomainText(d: Domain): (r: string)
  {
    FragmentsText(d.fragments)
  }

  /** `Domain.__str__`, which appends one fragment's literal form at a time. */
  method RenderDomain(d: Domain) returns (r: string)
    ensures r == DomainText(d)
  {
    r := "";
    for i := 0 to |d.fragments|
      invariant r == FragmentsText(d.fragments[..i])
    {
      var f := d.fragments[i];
      match f {
        case Literal(t) =>
          r := r + Replace(Replace(Replace(t, "%", "%%"), "%%20", "%-"), " ", "%_");
        case Placeholder(m) =>
          var text := BuildMacroText(m);
          r := r + text;
      }
      assert d.fragments[..i + 1][..i] == d.fragments[..i];
    }
    assert d.fragments[..|d.fragments|] == d.fragments;
  }

  /** The only spaces a domain's literal form can hold come from macro delimiters. */
  predicate SpaceFreeDelimiters(d: Domain)
  {
    forall i :: 0 <= i < |d.fragments| && d.fragments[i].Placeholder? ==>
      ' ' !in d.fragments[i].macro.delimiter
  }

  lemma {:induction false} FragmentsTextSpaceFree(fs: seq<Fragment>)
    requires forall i :: 0 <= i < |fs| && fs[i].Placeholder? ==> ' ' !in fs[i].macro.delimiter
    ensures ' ' !in FragmentsText(fs)
    decreases |fs|
  {
    if fs != [] {
      FragmentsTextSpaceFree(fs[..|fs| - 1]);
      match fs[|fs| - 1]
      case Literal(t) => EscapeRoundTrip(t);
      case Placeholder(m) => MacroTextSpaceFree(m);
    }
  }

  lemma MacroTextSpaceFree(m: Macro)
    requires ' ' !in m.delimiter
    ensures ' ' !in MacroText(m)
  {
    var length, reverse, delimiter := LengthText(m), ReverseText(m), DelimiterText(m);
    assert ' ' !in length by {
      if m.length != 0 {
        DecimalAvoids(m.length, ' ');
      }
    }
    assert ' ' !in reverse && ' ' !in delimiter;
    assert ' ' !in OptionsText(m) by {
      assert OptionsText(m) == length + reverse + delimiter;
    }
    MacroTextShape(m);
  }

  /** With space-free macro delimiters, a domain's literal form holds no space. */
  lemma DomainTextSpaceFree(d: Domain)
    requires SpaceFreeDelimiters(d)
    ensures ' ' !in DomainText(d)
  {
    FragmentsTextSpaceFree(d.fragments);
  }

  // ---------------------------------------------------------------------
  // Expansion

  function FragmentExpansion(f: Fragment, q: Query): (r: Result<string, Error>)
  {
    match f
    case Literal(t) => Success(t)
    case Placeholder(m) => Expansion(m, q)
  }

  /**
   * The fragments expanded and concatenated left to right; the first macro
   * that fails makes the whole fail.
   */
  function Concatenation(fs: seq<Fragment>, q: Query): (r: Result<string, Error>)
    decreases |fs|
  {
    if fs == [] then Success("")
    else
      match Concatenation(fs[..|fs| - 1], q)
      case Failure(e) => Failure(e)
      case Success(p) =>
        match FragmentExpansion(fs[|fs| - 1], q)
        case Failure(e) => Failure(e)
        case Success(x) => Success(p + x)
  }

  /** Strips whole leading labels while the text is over 253 characters. */
  function Capped(s: string): (r: Result<string, Error>)
    ensures r.Success? ==> |r.value| <= MaxLength && |r.value| <= |s| && r.value == s[|s| - |r.value|..]
    ensures r.Failure? ==> r.error == NoDotToStrip
    decreases |s|
  {
    if |s| <= MaxLength then Success(s)
    else if '.' !in s then Failure(NoDotToStrip)
    else Capped(s[IndexOf(s, '.') + 1..])
  }

  function DomainExpansion(d: Domain, q: Query): (r: Result<string, Error>)
    ensures r.Success? ==> Concatenation(d.fragments, q).Success?
    ensures r.Success? ==> var s := Concatenation(d.fragments, q).value;
      |r.value| <= MaxLength && |r.value| <= |s| && r.value == s[|s| - |r.value|..]
  {
    match Concatenation(d.fragments, q)
    case Failure(e) => Failure(e)
    case Success(s) => Capped(s)
  }

  /** Position `k` starts a label of `s`: the start, or right after a dot. */
  predicate IsCut(s: string, k: nat)
  {
    k <= |s| && (k == 0 || s[k - 1] == '.')
  }

  /** Every label-start suffix of `s` is over 253 characters. */
  predicate AllCutsLong(s: string)
  {
    forall k :: 0 <= k <= |s| && IsCut(s, k) ==> |s| - k > MaxLength
  }

  /**
   * `r` is the longest suffix of `s` that starts a label and has at most 253
   * characters.
   */
  predicate LongestCut(s: string, r: string)
  {
    |r| <= MaxLength && |r| <= |s| && r == s[|s| - |r|..] && IsCut(s, |s| - |r|) &&
    forall k :: 0 <= k < |s| - |r| && IsCut(s, k) ==> |s| - k > MaxLength
  }

  /** No label starts inside the first label of `s`. */
  lemma NoCutBeforeDot(s: string, i: nat)
    requires i < |s| && '.' !in s[..i]
    ensures forall k :: 0 < k <= i ==> !IsCut(s, k)
  {
    forall k | 0 < k <= i ensures !IsCut(s, k) {
      assert s[k - 1] == s[..i][k - 1];
    }
  }

  /** After the first dot, the label starts of `s` are those of the rest, shifted. */
  lemma CutsShifted(s: string, i: nat)
    requires i < |s| && s[i] == '.'
    ensures forall k :: i + 1 <= k <= |s| ==> (IsCut(s, k) <==> IsCut(s[i + 1..], k - i - 1))
  {
    var t := s[i + 1..];
    forall k | i + 1 <= k <= |s| ensures IsCut(s, k) <==> IsCut(t, k - i - 1) {
      if k > i + 1 { assert s[k - 1] == t[k - i - 2]; }
    }
  }

  /** The first dot of `s` is at `i`. */
  predicate FirstDot(s: string, i: nat)
  {
    i < |s| && s[i] == '.' && '.' !in s[..i]
  }

  /** A label start of `s` past its first label is a label start of the rest. */
  lemma CutInRest(s: string, i: nat, k: nat)
    requires FirstDot(s, i) && 0 < k <= |s| && IsCut(s, k)
    ensures i + 1 <= k && IsCut(s[i + 1..], k - i - 1)
  {
    NoCutBeforeDot(s, i);
    CutsShifted(s, i);
  }

  lemma LongestCutStep(s: string, i: nat, r: string)
    requires FirstDot(s, i) && |s| > MaxLength
    requires LongestCut(s[i + 1..], r)
    ensures LongestCut(s, r)
  {
    var t := s[i + 1..];
    assert s[|s| - |r|..] == t[|t| - |r|..];
    assert IsCut(s, |s| - |r|) by {
      CutsShifted(s, i);
    }
    forall k | 0 <= k < |s| - |r| && IsCut(s, k) ensures |s| - k > MaxLength {
      if k > 0 {
        CutInRest(s, i, k);
      }
    }
  }

  lemma AllCutsLongStep(s: string, i: nat)
    requires FirstDot(s, i) && |s| > MaxLength
    ensures AllCutsLong(s) <==> AllCutsLong(s[i + 1..])
  {
    var t := s[i + 1..];
    if AllCutsLong(t) {
      forall k | 0 <= k <= |s| && IsCut(s, k) ensures |s| - k > MaxLength {
        if k > 0 {
          CutInRest(s, i, k);
        }
      }
    }
    if AllCutsLong(s) {
      CutsShifted(s, i);
      forall k | 0 <= k <= |t| && IsCut(t, k) ensures |t| - k > MaxLength {
        assert IsCut(s, k + i + 1);
      }
    }
  }

  /**
   * The cap keeps the longest suffix of at most 253 characters that starts
   * a label, and fails exactly when every such suffix is longer.
   */
  lemma {:induction false} CappedSpec(s: string)
    ensures Capped(s).Success? ==> LongestCut(s, Capped(s).value)
    ensures Capped(s).Failure? <==> AllCutsLong(s)
    ensures Capped(s).Failure? ==> Capped(s).error == NoDotToStrip
    decreases |s|
  {
    if |s| <= MaxLength {
      assert IsCut(s, 0);
      assert s[|s| - |s|..] == s;
    } else if '.' !in s {
      forall j | 0 <= j < |s| ensures s[j] != '.' {
        assert s[j] in s;
      }
    } else {
      var i := IndexOf(s, '.');
      var t := s[i + 1..];
      CappedSpec(t);
      AllCutsLongStep(s, i);
      if Capped(t).Success? {
        LongestCutStep(s, i, Capped(t).value);
      }
    }
  }

  /** Text of at most 253 characters passes the cap unchanged. */
  lemma CappedShort(s: string)
    requires |s| <= MaxLength
    ensures Capped(s) == Success(s)
  {
  }

  /** A failed prefix makes the whole concatenation fail with the same error. */
  lemma {:induction false} ConcatenationStops(fs: seq<Fragment>, i: nat, q: Query)
    requires i <= |fs| && Concatenation(fs[..i], q).Failure?
    ensures Concatenation(fs, q) == Concatenation(fs[..i], q)
    decreases |fs|
  {
    if i < |fs| {
      assert fs[..|fs| - 1][..i] == fs[..i];
      ConcatenationStops(fs[..|fs| - 1], i, q);
    } else {
      assert fs[..i] == fs;
    }
  }

  /** Concatenation fails exactly when some fragment is a macro without a value. */
  lemma {:induction false} ConcatenationFails(fs: seq<Fragment>, q: Query)
    ensures Concatenation(fs, q).Failure? <==>
      exists i :: 0 <= i < |fs| && FragmentExpansion(fs[i], q).Failure?
    decreases |fs|
  {
    if fs != [] {
      var init := fs[..|fs| - 1];
      ConcatenationFails(init, q);
      if Concatenation(fs, q).Failure? && Concatenation(init, q).Success? {
        assert FragmentExpansion(fs[|fs| - 1], q).Failure?;
      }
      if exists i :: 0 <= i < |fs| && FragmentExpansion(fs[i], q).Failure? {
        var i :| 0 <= i < |fs| && FragmentExpansion(fs[i], q).Failure?;
        if i < |fs| - 1 {
          assert init[i] == fs[i];
        }
      }
      if exists i :: 0 <= i < |init| && FragmentExpansion(init[i], q).Failure? {
        var i :| 0 <= i < |init| && FragmentExpansion(init[i], q).Failure?;
        assert fs[i] == init[i];
      }
    }
  }

  /** `Domain.expand`: concatenate the expansions, then cut labels off the front. */
  method Expand(d: Domain, q: Query) returns (r: Result<string, Error>)
    ensures r == DomainExpansion(d, q)
    ensures r.Success? ==> |r.value| <= MaxLength
  {
    var fs := d.fragments;
    var result := "";
    for i := 0 to |fs|
      invariant Concatenation(fs[..i], q) == Success(result)
    {
      assert fs[..i + 1][..i] == fs[..i];
      match fs[i] {
        case Literal(t) =>
          result := result + t;
        case Placeholder(m) =>
          var x := Macros.Expand(m, q);
          if x.Failure? {
            ConcatenationStops(fs, i + 1, q);
            return Failure(x.error);
          }
          result := result + x.value;
      }
    }
    assert fs[..|fs|] == fs;
    ghost var whole := result;
    while |result| > MaxLength
      invariant Capped(result) == Capped(whole)
      decreases |result|
    {
      if '.' !in result {
        return Failure(NoDotToStrip);
      }
      result := result[IndexOf(result, '.') + 1..];
    }
    r := Success(result);
  }
}
