/**
 * An SPF record (section 4.6 of RFC 7208): `v=spf1` followed by directives
 * and modifiers, each directive a qualifier and a mechanism.
 */
module Records {
  import opened Wrappers
  import opened Text
  import opened Domains
  import opened Terms

  /** The qualifiers of section 4.6.2 of RFC 7208. */
  datatype Qualifier = Pass | Fail | Neutral | SoftFail

  function Symbol(q: Qualifier): (r: char)
  {
    match q
    case Pass => '+'
    case Fail => '-'
    case Neutral => '?'
    case SoftFail => '~'
  }

  /** `Qualifier(c)`: the qualifier whose symbol is `c`; any other character is rejected. */
  function QualifierOf(c: char): (r: Option<Qualifier>)
    ensures r.Some? <==> c in "+-?~"
    ensures r.Some? ==> Symbol(r.value) == c
  {
    match c
    case '+' => Some(Pass)
    case '-' => Some(Fail)
    case '?' => Some(Neutral)
    case '~' => Some(SoftFail)
    case _ => None
  }

  /** Every qualifier is found again from its symbol. */
  lemma QualifierOfSymbol(q: Qualifier)
    ensures QualifierOf(Symbol(q)) == Some(q)
  {
  }

  /** What a directive's text starts with: nothing for `Pass`, else the symbol. */
  function Prefix(q: Qualifier): (r: string)
  {
    if q == Pass then "" else [Symbol(q)]
  }

  datatype Directive = Directive(mechanism: Mechanism, qualifier: Qualifier)

  /** `Directive(mechanism, qualifier)`: the qualifier symbol must be one of `+-?~`. */
  function NewDirective(mechanism: Mechanism, symbol: char): (r: Option<Directive>)
    ensures r.Some? <==> symbol in "+-?~"
    ensures r.Some? ==> r.value.mechanism == mechanism && Symbol(r.value.qualifier) == symbol
  {
    match QualifierOf(symbol)
    case None => None
    case Some(q) => Some(Directive(mechanism, q))
  }

  function DirectiveText(d: Directive): (r: string)
    ensures r != [] && r[0] != '+'
    ensures r[0] in "-?~" <==> d.qualifier != Pass
  {
    Prefix(d.qualifier) + MechanismText(d.mechanism)
  }

  /** Reads an optional qualifier symbol off the front of a directive's text. */
  function ParseQualifier(s: string): (r: (Qualifier, string))
  {
    if s != [] && QualifierOf(s[0]).Some? then (QualifierOf(s[0]).value, s[1..]) else (Pass, s)
  }

  /** Reading the qualifier off a directive's text gives back the qualifier and the mechanism's text. */
  lemma DirectiveQualifier(d: Directive)
    ensures ParseQualifier(DirectiveText(d)) == (d.qualifier, MechanismText(d.mechanism))
  {
    MechanismTokens(d.mechanism);
    var mech := MechanismText(d.mechanism);
    assert 'a' <= mech[0] <= 'z';
    assert mech[0] !in "+-?~";
    if d.qualifier != Pass {
      assert DirectiveText(d)[1..] == mech;
      QualifierOfSymbol(d.qualifier);
    } else {
      assert DirectiveText(d) == mech;
    }
  }

  datatype Term = DirectiveTerm(directive: Directive) | ModifierTerm(modifier: Modifier)

  function TermText(t: Term): (r: string)
  {
    match t
    case DirectiveTerm(d) => DirectiveText(d)
    case ModifierTerm(m) => ModifierText(m)
  }

  /** A policy record: its terms in order. The version is always `spf1`. */
  datatype Record = Record(terms: seq<Term>)

  const Version: string := "spf1"

  function TermTexts(terms: seq<Term>): (r: seq<string>)
    ensures |r| == |terms|
  {
    seq(|terms|, i requires 0 <= i < |terms| => TermText(terms[i]))
  }

  /** `v=spf1`, then a space and the terms joined by single spaces when there are any. */
  function RecordText(r: Record): (text: string)
    ensures |text| >= 6 && text[..6] == "v=spf1"
  {
    "v=" + Version + (if |r.terms| > 0 then " " + Join(" ", TermTexts(r.terms)) else "")
  }

  /** The parts of a term hold no space. */
  predicate SpaceFreeTerm(t: Term)
  {
    match t
    case DirectiveTerm(d) => SpaceFreeMechanism(d.mechanism)
    case ModifierTerm(m) => SpaceFreeDelimiters(m.domain)
  }

  lemma TermTextShape(t: Term)
    requires SpaceFreeTerm(t)
    ensures |TermText(t)| >= 1 && Avoids(TermText(t), " ")
  {
    match t
    case DirectiveTerm(d) =>
      DirectiveQualifier(d);
      MechanismTextSpaceFree(d.mechanism);
      assert ' ' !in Prefix(d.qualifier);
    case ModifierTerm(m) =>
      ModifierTextSpaceFree(m);
    var text := TermText(t);
    forall k | 0 <= k < |text| ensures text[k] !in " " {
      assert text[k] in text;
    }
  }

  /** A space-free head and space-free texts, joined by single spaces, split back into those parts. */
  lemma HeaderTokens(head: string, texts: seq<string>)
    requires Avoids(head, " ")
    requires forall i :: 0 <= i < |texts| ==> Avoids(texts[i], " ")
    ensures Split(head + (if |texts| > 0 then " " + Join(" ", texts) else ""), " ") == [head] + texts
  {
    if |texts| > 0 {
      HeaderTokensSome(head, texts);
    } else {
      assert head + "" == head;
      SplitAvoiding(head, " ");
    }
  }

  lemma HeaderTokensSome(head: string, texts: seq<string>)
    requires |texts| > 0
    requires Avoids(head, " ")
    requires forall i :: 0 <= i < |texts| ==> Avoids(texts[i], " ")
    ensures Split(head + (" " + Join(" ", texts)), " ") == [head] + texts
  {
    var parts := [head] + texts;
    assert Join(" ", parts) == head + (" " + Join(" ", texts)) by {
      JoinCons(" ", head, texts);
    }
    assert Split(Join(" ", parts), " ") == parts by {
      PartsAvoid(head, texts);
      assert " " == [' '];
      SplitJoin(parts, " ", ' ');
    }
  }

  lemma PartsAvoid(head: string, texts: seq<string>)
    requires Avoids(head, " ")
    requires forall i :: 0 <= i < |texts| ==> Avoids(texts[i], " ")
    ensures forall i :: 0 <= i < |[head] + texts| ==> Avoids(([head] + texts)[i], " ")
  {
    var parts := [head] + texts;
    forall i | 0 <= i < |parts| ensures Avoids(parts[i], " ") {
      if i > 0 { assert parts[i] == texts[i - 1]; }
    }
  }

  /**
   * Cutting a record's text at its spaces gives `v=spf1` and then every
   * term's text, in order and none of them empty: the terms are separated by
   * single spaces, with no space at the end.
   */
  lemma RecordTokens(r: Record)
    requires forall i :: 0 <= i < |r.terms| ==> SpaceFreeTerm(r.terms[i])
    ensures Split(RecordText(r), " ") == ["v=spf1"] + TermTexts(r.terms)
    ensures forall i :: 0 <= i < |r.terms| ==> TermTexts(r.terms)[i] != ""
  {
    var texts := TermTexts(r.terms);
    forall i | 0 <= i < |texts| ensures texts[i] != "" && Avoids(texts[i], " ") {
      TermTextShape(r.terms[i]);
    }
    var head := "v=" + Version;
    assert head == "v=spf1";
    assert Avoids(head, " ") by {
      forall k | 0 <= k < |head| ensures head[k] !in " " {
        assert head[k] in "v=spf1";
      }
    }
    HeaderTokens(head, texts);
  }

  /** The text is exactly `v=spf1` when, and only when, the record has no terms. */
  lemma RecordEmpty(r: Record)
    ensures RecordText(r) == "v=spf1" <==> |r.terms| == 0
  {
    if |r.terms| > 0 {
      assert |RecordText(r)| > 6;
    }
  }
}
