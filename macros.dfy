/**
 * SPF macros (section 7 of RFC 7208): the `%{...}` placeholder, its literal
 * form, and its expansion against a query (section 7.3).
 */
module Macros {
  import opened Wrappers
  import opened Text
  import opened Queries

  /** The macro letters of section 7.2 of RFC 7208. */
  datatype MacroType =
    | Sender        // s
    | SenderLocal   // l
    | SenderDomain  // o
    | Domain        // d
    | IP            // i
    | IPDomain      // p
    | IPVersion     // v
    | Helo          // h

  function Letter(t: MacroType): (r: char)
  {
    match t
    case Sender => 's'
    case SenderLocal => 'l'
    case SenderDomain => 'o'
    case Domain => 'd'
    case IP => 'i'
    case IPDomain => 'p'
    case IPVersion => 'v'
    case Helo => 'h'
  }

  /** `Macro.Type(c)`: the type whose letter is `c`; any other character is rejected. */
  function TypeOf(c: char): (r: Option<MacroType>)
    ensures r.Some? <==> c in "slodipvh"
    ensures r.Some? ==> Letter(r.value) == c
  {
    match c
    case 's' => Some(Sender)
    case 'l' => Some(SenderLocal)
    case 'o' => Some(SenderDomain)
    case 'd' => Some(Domain)
    case 'i' => Some(IP)
    case 'p' => Some(IPDomain)
    case 'v' => Some(IPVersion)
    case 'h' => Some(Helo)
    case _ => None
  }

  /** Every type is found again from its letter. */
  lemma TypeOfLetter(t: MacroType)
    ensures TypeOf(Letter(t)) == Some(t)
  {
  }

  /** A delimiter set is never empty once a macro holds it. */
  type Delimiter = s: string | s != [] witness "."

  /**
   * A macro. `length == 0` means "no length": `Macro.__str__` and
   * `Macro.expand` test the length for truth, so 0 and `None` behave alike.
   */
  datatype Macro = Macro(kind: MacroType, length: nat, reverse: bool, delimiter: Delimiter)

  /** The failures expansion can meet. */
  datatype Error =
    | NoRawValue(kind: MacroType)  // the letter has no value in a query: the split gets `None`
    | NoDotToStrip                 // still over 253 characters, and no `.` is left to cut at

  /**
   * `Macro(_type, length, reverse, delimiter)`: an unknown letter is rejected
   * and an empty delimiter becomes `.`.
   */
  function NewMacro(letter: char, length: nat, reverse: bool, delimiter: string): (r: Option<Macro>)
    ensures r.Some? <==> letter in "slodipvh"
    ensures r.Some? ==> Letter(r.value.kind) == letter && r.value.length == length && r.value.reverse == reverse
    ensures r.Some? && delimiter == "" ==> r.value.delimiter == "."
    ensures r.Some? && delimiter != "" ==> r.value.delimiter == delimiter
  {
    match TypeOf(letter)
    case None => None
    case Some(t) => Some(Macro(t, length, reverse, if delimiter == "" then "." else delimiter))
  }

  /** The delimiter characters section 7.1 of RFC 7208 allows. */
  predicate RfcDelimiters(d: string)
  {
    forall k :: 0 <= k < |d| ==> d[k] in ".-+,/_="
  }

  function LengthText(m: Macro): (r: string)
  {
    if m.length != 0 then Decimal(m.length) else ""
  }

  function ReverseText(m: Macro): (r: string)
  {
    if m.reverse then "r" else ""
  }

  function DelimiterText(m: Macro): (r: string)
  {
    if m.delimiter != "." then m.delimiter else ""
  }

  /**
   * The literal form: `%{`, the letter, the length when it is set, `r` when
   * reversed, the delimiters unless they are the default `.`, and `}`.
   */
  function MacroText(m: Macro): (r: string)
    ensures |r| >= 4 && r[..2] == "%{" && r[2] == Letter(m.kind) && r[|r| - 1] == '}'
  {
    "%{" + [Letter(m.kind)] + LengthText(m) + ReverseText(m) + DelimiterText(m) + "}"
  }

  /** `Macro.__str__`, which builds the text by successive appends. */
  method BuildMacroText(m: Macro) returns (r: string)
    ensures r == MacroText(m)
  {
    var result := [Letter(m.kind)];
    if m.length != 0 {
      result := result + Decimal(m.length);
    }
    if m.reverse {
      result := result + "r";
    }
    if m.delimiter != "." {
      result := result + m.delimiter;
    }
    r := "%{" + result + "}";
  }

  /** Reads a literal macro form back. */
  function ParseMacro(s: string): (r: Option<Macro>)
  {
    if |s| < 4 || s[..2] != "%{" || s[|s| - 1] != '}' then None
    else
      var body := s[2..|s| - 1];
      match TypeOf(body[0])
      case None => None
      case Some(t) => Some(ParseOptions(t, body[1..]))
  }

  /** Reads the length digits, the `r` and the delimiters that follow the letter. */
  function ParseOptions(t: MacroType, rest: string): (r: Macro)
  {
    var n := DigitRun(rest);
    ReadFlags(t, DigitsValue(rest[..n]), rest[n..])
  }

  /** What follows the length: an optional `r`, then the delimiters (`.` when none). */
  function ReadFlags(t: MacroType, length: nat, tail: string): (r: Macro)
  {
    var reverse := tail != [] && tail[0] == 'r';
    var delimiter := if reverse then tail[1..] else tail;
    Macro(t, length, reverse, if delimiter == [] then "." else delimiter)
  }

  function OptionsText(m: Macro): (r: string)
  {
    LengthText(m) + ReverseText(m) + DelimiterText(m)
  }

  lemma MacroTextShape(m: Macro)
    ensures MacroText(m) == "%{" + [Letter(m.kind)] + OptionsText(m) + "}"
  {
  }

  /** What follows the length digits: empty, or `r`, or a delimiter, never a digit. */
  lemma AfterLength(m: Macro)
    requires RfcDelimiters(m.delimiter)
    ensures var after := ReverseText(m) + DelimiterText(m);
      (after == [] || !IsDigit(after[0])) &&
      (m.reverse <==> after != [] && after[0] == 'r') &&
      (m.reverse ==> after[1..] == DelimiterText(m)) &&
      (!m.reverse ==> after == DelimiterText(m))
  {
    var after := ReverseText(m) + DelimiterText(m);
    if m.reverse {
      assert after[0] == 'r';
      assert after[1..] == DelimiterText(m);
    } else {
      assert after == DelimiterText(m);
      if after != [] {
        assert after[0] == m.delimiter[0];
        assert m.delimiter[0] in ".-+,/_=";
      }
    }
  }

  /** The length text is a run of digits that reads back as the length. */
  lemma LengthTextDigits(m: Macro)
    ensures AllDigits(LengthText(m)) && DigitsValue(LengthText(m)) == m.length
  {
    if m.length != 0 {
      DecimalDigits(m.length);
    }
  }

  /** Options read as their leading digit run, then the flags after it. */
  lemma ParseOptionsSplit(t: MacroType, digits: string, after: string)
    requires AllDigits(digits) && (after == [] || !IsDigit(after[0]))
    ensures ParseOptions(t, digits + after) == ReadFlags(t, DigitsValue(digits), after)
  {
    var rest := digits + after;
    DigitRunOver(digits, after);
    assert rest[..|digits|] == digits;
    assert rest[|digits|..] == after;
  }

  lemma ReadFlagsText(m: Macro)
    requires RfcDelimiters(m.delimiter)
    ensures ReadFlags(m.kind, m.length, ReverseText(m) + DelimiterText(m)) == m
  {
    AfterLength(m);
  }

  lemma ParseOptionsText(m: Macro)
    requires RfcDelimiters(m.delimiter)
    ensures ParseOptions(m.kind, OptionsText(m)) == m
  {
    var length, after := LengthText(m), ReverseText(m) + DelimiterText(m);
    assert OptionsText(m) == length + after;
    assert ParseOptions(m.kind, length + after) == ReadFlags(m.kind, m.length, after) by {
      AfterLength(m);
      LengthTextDigits(m);
      ParseOptionsSplit(m.kind, length, after);
    }
    ReadFlagsText(m);
  }

  /**
   * The literal form is unambiguous: with delimiters from the set of
   * RFC 7208, reading it back gives the same macro.
   */
  lemma ParseMacroText(m: Macro)
    requires RfcDelimiters(m.delimiter)
    ensures ParseMacro(MacroText(m)) == Some(m)
  {
    MacroTextShape(m);
    ParseMacroShape(Letter(m.kind), OptionsText(m));
    TypeOfLetter(m.kind);
    ParseOptionsText(m);
  }

  lemma ParseMacroShape(c: char, options: string)
    ensures ParseMacro("%{" + [c] + options + "}") ==
      if TypeOf(c).Some? then Some(ParseOptions(TypeOf(c).value, options)) else None
  {
    var s := "%{" + [c] + options + "}";
    assert s[..2] == "%{";
    assert s[2..|s| - 1] == [c] + options;
    assert ([c] + options)[1..] == options;
  }

  /**
   * The value a macro letter stands for; `p` and `h` have none, so
   * expansion fails on them.
   */
  function RawValue(t: MacroType, q: Query): (r: Option<string>)
    ensures r.None? <==> t == IPDomain || t == Helo
  {
    match t
    case Sender => Some(Queries.Sender(q))
    case SenderLocal => Some(Split(Queries.Sender(q), "@")[0])
    case SenderDomain =>
      SplitSecond(Queries.Sender(q), '@');
      Some(Split(Queries.Sender(q), "@")[1])
    case Domain => Some(Queries.Domain(q))
    case IP => Some(IPText(q.ip))
    case IPVersion => Some(IPVersionText(q.ip))
    case IPDomain => None
    case Helo => None
  }

  /** The raw values of the sender parts, stated without splitting. */
  lemma RawValueSenderParts(q: Query)
    ensures RawValue(SenderLocal, q) == Some(Before(Queries.Sender(q), '@'))
    ensures RawValue(SenderDomain, q) == Some(Before(After(Queries.Sender(q), '@'), '@'))
  {
    SplitFirst(Queries.Sender(q), '@');
    SplitSecond(Queries.Sender(q), '@');
  }

  /** The labels a macro keeps, in the order it keeps them. */
  function Selected(m: Macro, labels: seq<string>): (r: seq<string>)
    ensures |r| == KeptCount(m, |labels|)
  {
    var ordered := if m.reverse then Reversed(labels) else labels;
    if m.length != 0 then LastN(ordered, m.length) else ordered
  }

  /**
   * Expansion: split the raw value at every delimiter character, reverse if
   * asked, keep the last `length` labels if a length is set, join with `.`.
   * It fails, naming the letter, exactly for the letters without a raw value.
   */
  function Expansion(m: Macro, q: Query): (r: Result<string, Error>)
    ensures r.Failure? <==> m.kind == IPDomain || m.kind == Helo
    ensures r.Failure? ==> r.error == NoRawValue(m.kind)
  {
    match RawValue(m.kind, q)
    case None => Failure(NoRawValue(m.kind))
    case Some(raw) => Success(Join(".", Selected(m, Split(raw, m.delimiter))))
  }

  /** How many labels a macro keeps out of `n`. */
  function KeptCount(m: Macro, n: nat): (r: nat)
  {
    if m.length == 0 || m.length >= n then n else m.length
  }

  /**
   * The kept labels, stated element by element, without `Reversed` and
   * `LastN`: with reversal, the first `k` labels last-to-first; without it,
   * the last `k` labels in order.
   */
  lemma SelectedLabels(m: Macro, labels: seq<string>)
    ensures var n, k := |labels|, KeptCount(m, |labels|);
      forall j :: 0 <= j < k ==>
        Selected(m, labels)[j] == (if m.reverse then labels[k - 1 - j] else labels[n - k + j])
  {
  }

  /** With the default delimiter, no reversal and no length, a macro expands to its raw value. */
  lemma ExpansionDefault(m: Macro, q: Query)
    requires m.delimiter == "." && !m.reverse && m.length == 0
    requires RawValue(m.kind, q).Some?
    ensures Expansion(m, q) == Success(RawValue(m.kind, q).value)
  {
    var raw := RawValue(m.kind, q).value;
    JoinSplit(raw, ".", '.');
    SubstituteSelf(raw, '.');
  }

  /**
   * The raw value splits into one label more than it has delimiter
   * characters, and when `.` is a delimiter, the expansion splits at its
   * dots into exactly the labels that were kept.
   */
  lemma ExpansionLabels(m: Macro, q: Query)
    requires RawValue(m.kind, q).Some?
    ensures var labels := Split(RawValue(m.kind, q).value, m.delimiter);
      |labels| == Count(RawValue(m.kind, q).value, m.delimiter) + 1
    ensures '.' in m.delimiter ==>
      Split(Expansion(m, q).value, ".") == Selected(m, Split(RawValue(m.kind, q).value, m.delimiter))
  {
    var raw := RawValue(m.kind, q).value;
    var labels := Split(raw, m.delimiter);
    SplitCount(raw, m.delimiter);
    if '.' in m.delimiter {
      SplitLabelsAvoid(raw, m.delimiter);
      var kept := Selected(m, labels);
      SelectedLabels(m, labels);
      forall i | 0 <= i < |kept| ensures Avoids(kept[i], ".") {
        assert Avoids(kept[i], m.delimiter);
      }
      SplitJoin(kept, ".", '.');
    }
  }

  /** Reverses an array of labels in place (`list.reverse()`). */
  method ReverseLabels(a: array<string>)
    modifies a
    ensures a[..] == Reversed(old(a[..]))
  {
    var lo, hi := 0, a.Length;
    while lo + 1 < hi
      invariant 0 <= lo <= hi <= a.Length && lo + hi == a.Length
      invariant forall k :: (0 <= k < lo || hi <= k < a.Length) ==> a[k] == old(a[a.Length - 1 - k])
      invariant forall k :: lo <= k < hi ==> a[k] == old(a[k])
    {
      a[lo], a[hi - 1] := a[hi - 1], a[lo];
      lo, hi := lo + 1, hi - 1;
    }
  }

  /** `Macro.expand`: the result is the expansion function's, computed step by step. */
  method Expand(m: Macro, q: Query) returns (r: Result<string, Error>)
    ensures r == Expansion(m, q)
    ensures r.Success? && m.delimiter == "." && !m.reverse && m.length == 0 ==>
      r.value == RawValue(m.kind, q).value
  {
    var raw := RawValue(m.kind, q);
    if raw.None? {
      return Failure(NoRawValue(m.kind));
    }
    var labels := Split(raw.value, m.delimiter);
    if m.reverse {
      var a := new string[|labels|](i requires 0 <= i < |labels| => labels[i]);
      assert a[..] == labels;
      ReverseLabels(a);
      labels := a[..];
    }
    if m.length != 0 {
      labels := LastN(labels, m.length);
    }
    r := Success(Join(".", labels));
    if m.delimiter == "." && !m.reverse && m.length == 0 {
      ExpansionDefault(m, q);
    }
  }
}
