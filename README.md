# SPF record terms, macros and domains in Dafny

This project models the record tree of `spf2acl` (`src/spf2acl/spf.py`): the
objects that make up a Sender Policy Framework record (RFC 7208) and the two
things the library does with them. It writes a record back as text:
`v=spf1`, then directives (an optional qualifier and a mechanism: `all`,
`include`, `exists`, `a`, `mx`, `ip4`/`ip6`) and modifiers (`redirect=`,
`exp=`). It also expands a domain specification (literal text and `%{…}`
macros) against a query (sender, domain, client IP), capped at 253
characters.

Modules:

- `Wrappers` — `Option` and `Result`.
- `Text` — the Python string operations the code relies on: `str.join`,
  `re.split` over a set of single characters (and `str.split` on one
  character), `str.replace` (leftmost, non-overlapping), `str.index`,
  `"%d"`, `s[-n:]`, `list.reverse`.
- `Queries` — `Query`, its effective sender (`postmaster@` added when there
  is no `@`) and domain (explicit, or the text after the sender's `@`). The
  client address is an IPv4 address (four octets) or an IPv6 address (eight
  16-bit groups). Its `i` text is the dotted quad, or the 32 hex nibbles of
  the full IPv6 form joined by dots.
- `Macros` — the eight macro letters, `Macro` (letter, length with 0 for
  unset, reverse flag, non-empty delimiter set), its literal form
  `%{…}` and a reader for that form. It also holds the raw value of each
  letter and the expansion (split, reverse, keep the last `length` labels,
  join with `.`). `Expand` is the imperative version: it reverses the labels
  in place in an array.
- `Domains` — a domain specification as literal and macro fragments, its
  literal form (`%` → `%%`, then `%%20` → `%-`, then space → `%_`), and an
  unescaping reader for that form. Expansion concatenates the fragments,
  fails on the first macro without a value, then strips leading labels
  while the text is over 253 characters.
- `Terms` — mechanisms and modifiers, their text (the `a`/`mx` suffix
  `:domain`, `/n`, `//m`; the network suffix `/prefix`), and readers for
  the suffix text.
- `Records` — qualifiers, directives, terms and the record text.
- `Scenarios` — worked examples: default qualifier and prefix elision,
  two-term records, sender macros, reversed and truncated expansion.

Where the code departs from what RFC 7208 describes, the model follows the
code:

- A macro length of 0 means "no length" (`if self.length:`). Nothing checks
  that a given length is positive.
- The letters `p` and `h` have no raw value. Expanding them fails, as the
  code does when it splits `None`. This is `NoRawValue` in the model.
- When the capped text is over 253 characters and holds no dot,
  `str.index` raises. This is `NoDotToStrip` in the model. The 253-character
  bound counts characters, not bytes.
- `%{o}` and the default domain are the text between the sender's first
  and second `@`, because the code takes element 1 of `split("@")`.
- An `ip4`/`ip6` network shows `/prefix` exactly when the prefix differs
  from what the address library reports as the address's netmask bits. This
  is the full width unless the address is itself a netmask.

The second `DOMAIN` branch of `Macro.expand` (lines 280-281) comes after an
earlier test of the same letter, so it can never be taken; the model has no
counterpart for it.

## Model

| member | source | states |
|---|---|---|
| Text.SplitCount | src/spf2acl/spf.py:294 | splitting at a set of delimiter characters gives one more label than the text has delimiter characters |
| Text.SplitJoin | src/spf2acl/spf.py:57-58 | joining labels free of the delimiters with one delimiter character and splitting again gives the labels back |
| Text.JoinSplit | src/spf2acl/spf.py:294-299 | splitting at the delimiters and joining with `c` is the same as replacing every delimiter character by `c` |
| Queries.Sender | src/spf2acl/spf.py:359-364 | the effective sender always contains `@`; it is the given sender when that has an `@`, otherwise `postmaster@` and the given sender |
| Queries.SenderIdempotent | src/spf2acl/spf.py:359-364 | applying the `postmaster@` default to an effective sender changes nothing |
| Queries.Domain | src/spf2acl/spf.py:366-368 | a non-empty explicit domain wins; otherwise the domain is the text between the first and second `@` of the effective sender |
| Queries.DomainFallback | src/spf2acl/spf.py:366-368 | without an explicit domain, a sender that has no `@` is itself the effective domain |
| Queries.IPText | src/spf2acl/spf.py:282-288 | the `i` text: the dotted quad of an IPv4 address, the 32 hex nibbles of an IPv6 address joined by dots; its contract is carried by Queries.IPTextLabels and Queries.NibblesHex |
| Queries.IPTextLabels | src/spf2acl/spf.py:282-288 | the `i` text of an IPv4 address splits at dots into exactly its four decimal octets; that of an IPv6 address into exactly the 32 nibbles of its expanded form, each one lower-case hex digit |
| Queries.NibblesHex | src/spf2acl/spf.py:283-285 | every character of the IPv6 nibble text is a lower-case hexadecimal digit |
| Queries.IPVersionText | src/spf2acl/spf.py:289-293 | the `v` value is `ip6` for an IPv6 address and `in-addr` for an IPv4 address |
| Macros.TypeOf | src/spf2acl/spf.py:218-226 | a letter names a macro type exactly when it is one of `slodipvh`, and the type's letter is that letter |
| Macros.TypeOfLetter | src/spf2acl/spf.py:218-226 | every macro type is found again from its letter |
| Macros.NewMacro | src/spf2acl/spf.py:228-232 | a macro is built exactly for the eight letters; length and reverse are kept; an empty delimiter becomes `.`, any other is kept |
| Macros.MacroText | src/spf2acl/spf.py:250-258 | a macro's literal form has at least four characters: `%{`, the type letter, the options, and a closing `}` |
| Macros.BuildMacroText | src/spf2acl/spf.py:250-258 | the text built step by step is the macro's literal form |
| Macros.ParseOptionsText | src/spf2acl/spf.py:252-257 | with delimiters drawn from RFC 7208's set `.-+,/_=`, the options written after the letter (length digits, `r`, delimiters unless `.`) read back to the same length, reverse flag and delimiter |
| Macros.ParseMacroText | src/spf2acl/spf.py:250-258 | with delimiters from the set of RFC 7208, reading the literal form back gives the same macro |
| Macros.RawValue | src/spf2acl/spf.py:271-293 | a letter has no raw value exactly when it is `p` or `h` |
| Macros.RawValueSenderParts | src/spf2acl/spf.py:274-277 | `l` is the effective sender before its first `@`; `o` is the text between its first and second `@` |
| Macros.Selected | src/spf2acl/spf.py:295-298 | reversing if asked and then keeping the last `length` labels keeps as many labels as the length when it is set and smaller than the label count, else all of them; Macros.SelectedLabels says which |
| Macros.SelectedLabels | src/spf2acl/spf.py:295-298 | with reversal the kept labels are the first labels last-to-first; without it they are the last labels in order |
| Macros.Expansion | src/spf2acl/spf.py:270-299 | an expansion fails exactly for `p` and `h`, and the failure names that letter |
| Macros.ExpansionDefault | src/spf2acl/spf.py:294-299 | with default options the expansion is the raw value unchanged |
| Macros.ExpansionLabels | src/spf2acl/spf.py:294-299 | the raw value splits into one more label than it has delimiter characters; when `.` is a delimiter, the expansion splits at dots into exactly the selected labels |
| Macros.ReverseLabels | src/spf2acl/spf.py:295-296 | the labels in the array end up in reverse order |
| Macros.Expand | src/spf2acl/spf.py:270-299 | the imperative expansion equals the functional one; with default options it gives the raw value |
| Domains.EscapeLiteral | src/spf2acl/spf.py:307 | the three chained replacements equal one left-to-right pass mapping `%20` to `%-`, `%` to `%%` and space to `%_` |
| Domains.DoubledThenTwenty | src/spf2acl/spf.py:307 | replacing `%%20` after doubling every `%` equals escaping `%20` and `%` in one pass |
| Domains.PercentThenSpace | src/spf2acl/spf.py:307 | replacing spaces after the `%` escapes equals the full one-pass escape |
| Domains.EscapeRoundTrip | src/spf2acl/spf.py:307 | unescaping the literal form of a text gives the text back, and the literal form holds no space |
| Domains.EscapePlain | src/spf2acl/spf.py:307 | text without `%` or space is written unchanged |
| Domains.DomainText | src/spf2acl/spf.py:303-310 | a domain's text is its fragments' literal forms in order; its contract is carried by Domains.RenderDomain, Domains.EscapeRoundTrip and Domains.DomainTextSpaceFree |
| Domains.RenderDomain | src/spf2acl/spf.py:302-310 | the text built fragment by fragment is the domain's literal form |
| Domains.MacroTextSpaceFree | src/spf2acl/spf.py:250-258 | a macro whose delimiters hold no space is written without a space |
| Domains.FragmentsTextSpaceFree | src/spf2acl/spf.py:302-310 | fragments whose macro delimiters hold no space are written without a space |
| Domains.DomainTextSpaceFree | src/spf2acl/spf.py:302-310 | a domain whose macro delimiters hold no space is written without a space, so it stays one record word |
| Domains.CappedSpec | src/spf2acl/spf.py:319-320 | the cap gives the longest suffix of at most 253 characters that starts a label; it fails exactly when every label-starting suffix is longer |
| Domains.CappedShort | src/spf2acl/spf.py:319 | text of at most 253 characters is left unchanged |
| Domains.Capped | src/spf2acl/spf.py:319-320 | a capped text has at most 253 characters and is a suffix of the input; a failure is always the missing dot |
| Domains.Concatenation | src/spf2acl/spf.py:313-318 | the fragments expanded and appended left to right, the first failing macro failing the whole; its contract is carried by Domains.ConcatenationStops and Domains.ConcatenationFails |
| Domains.ConcatenationStops | src/spf2acl/spf.py:313-318 | once a prefix of the fragments fails, the whole concatenation fails with the same error |
| Domains.ConcatenationFails | src/spf2acl/spf.py:313-318 | the concatenation fails exactly when some fragment is a macro without a value |
| Domains.DomainExpansion | src/spf2acl/spf.py:312-321 | a successful expansion comes from a successful concatenation and is a suffix of it of at most 253 characters |
| Domains.Expand | src/spf2acl/spf.py:312-321 | the imperative expansion equals the functional one, and a successful result has at most 253 characters |
| Terms.CidrSuffix | src/spf2acl/spf.py:154-162 | the suffix is empty exactly with no domain and both default lengths; otherwise it starts with `:` or `/` |
| Terms.BuildCidrSuffix | src/spf2acl/spf.py:154-162 | the suffix built step by step is `:domain` when a domain is given, `/n` when the IPv4 length is not 32, `//m` when the IPv6 length is not 128 |
| Terms.CidrSuffixParts | src/spf2acl/spf.py:154-162 | with a slash-free domain part, the suffix holds a slash exactly when a prefix length is not its default |
| Terms.ParseCidrSuffix | src/spf2acl/spf.py:154-162 | reading the suffix back gives the domain's text and both prefix lengths, when the domain's text holds no `/` |
| Terms.MechanismText | src/spf2acl/spf.py:103-211 | a mechanism's text is never empty and starts with a lower-case letter, so never with a qualifier symbol |
| Terms.DomainArgument | src/spf2acl/spf.py:119-120 | the argument of `include` and `exists` starts with `:`, and Terms.MechanismTokens shows the domain text follows it |
| Terms.MechanismTokens | src/spf2acl/spf.py:103-211 | a mechanism's text is its name followed by its argument, and the RFC 7208 name token ends exactly where the argument starts |
| Terms.ModifierText | src/spf2acl/spf.py:333-350 | a modifier's text is longer than its name and has `=` right after the name |
| Terms.ModifierArgument | src/spf2acl/spf.py:336-337 | a modifier's argument starts with `=`, and Terms.ModifierTokens shows the domain text follows it |
| Terms.ModifierTokens | src/spf2acl/spf.py:336-350 | a modifier's text is its name, `=` and its domain, and the name token ends exactly at the `=` |
| Terms.NetSuffix | src/spf2acl/spf.py:206-210 | the network suffix is empty exactly when the prefix equals the netmask bits, and otherwise starts with `/`; Terms.NetworkText reads the number back |
| Terms.NetworkText | src/spf2acl/spf.py:205-211 | the network text shows a slash exactly when the prefix differs from the netmask bits, and the number after it reads back as the prefix |
| Terms.MechanismTextSpaceFree | src/spf2acl/spf.py:154-211 | a mechanism whose domain delimiters and address hold no space is written without a space |
| Terms.ModifierTextSpaceFree | src/spf2acl/spf.py:336-350 | a modifier whose domain delimiters hold no space is written without a space |
| Records.QualifierOf | src/spf2acl/spf.py:62-72 | a symbol is a qualifier exactly when it is one of `+ - ? ~`, and the qualifier's symbol is that symbol |
| Records.QualifierOfSymbol | src/spf2acl/spf.py:62-66 | every qualifier is found again from its symbol |
| Records.NewDirective | src/spf2acl/spf.py:70-72 | a directive is built exactly for the four qualifier symbols, keeping the mechanism and the qualifier |
| Records.DirectiveText | src/spf2acl/spf.py:82-84 | a directive's text is never empty and never starts with `+`; it starts with `-`, `?` or `~` exactly when the qualifier is not pass |
| Records.DirectiveQualifier | src/spf2acl/spf.py:82-84 | reading the qualifier back off a directive's text gives the qualifier and the mechanism's text |
| Records.TermTextShape | src/spf2acl/spf.py:55-59 | each word the record joins, a directive's text (lines 82-84) or a modifier's text (lines 336-350), is non-empty and holds no space when the term's parts hold none |
| Records.RecordText | src/spf2acl/spf.py:55-59 | the record text always starts with `v=spf1` |
| Records.RecordTokens | src/spf2acl/spf.py:55-59 | when no term's parts hold a space, splitting the record text at spaces gives `v=spf1` followed by the terms' texts, none of them empty |
| Records.RecordEmpty | src/spf2acl/spf.py:55-59 | the record text is exactly `v=spf1` when there are no terms |
| Scenarios.QualifierElision | src/spf2acl/spf.py:82-84 | `all` with pass is written `all`, with fail `-all` |
| Scenarios.DualCidr | src/spf2acl/spf.py:154-178 | `a` with lengths 24 and 64 is `a/24//64`; the default `a` is `a` |
| Scenarios.MXCidr | src/spf2acl/spf.py:154-182 | `mx` with IPv4 length 24 is `mx/24`; the default `mx` is `mx` |
| Scenarios.NetworkSuffix | src/spf2acl/spf.py:205-211 | an IPv4 /24 network is written with `/24`, a single IPv4 address without a suffix |
| Scenarios.SpfDomainText | src/spf2acl/spf.py:302-310 | the literal domain `_spf.example.com` is written unchanged |
| Scenarios.TwoTerms | src/spf2acl/spf.py:55-59 | a two-term record is `v=spf1`, the first term and the second term separated by single spaces |
| Scenarios.IncludeThenFail | src/spf2acl/spf.py:55-59 | `include` of a domain followed by fail `all` is `v=spf1 include:<domain> -all` |
| Scenarios.SenderMacros | src/spf2acl/spf.py:272-277 | for a sender `local@domain`, `%{s}`, `%{l}` and `%{o}` give the address, the local part and the domain |
| Scenarios.ReversedTruncated | src/spf2acl/spf.py:294-299 | `%{d2r}` of a domain `a.b.c` whose labels hold no dot gives `b.a` |

## Left out

- Parsing of record text is not part of the library's core. The readers in
  the model (`ParseMacro`, `ParseCidr`, `Unescape`, `ParseQualifier`,
  `NameRun`) only serve as inverses of the writers.
- The address library's network parsing and normalisation (lines 187-203)
  is out of scope. A network is its version, the text of its base address,
  its prefix and its netmask bits, taken as given. The text of an IPv6
  address there is not computed.
- `IPAddress` parsing in `Query.__init__` (line 357) is out of scope: the
  query holds the parsed octets or groups, as an `Address` of four octets
  or eight groups. The default address `127.0.0.1` is the constant
  `Queries.Loopback`.
- The `__repr__` methods, logging, and the `__Sequence` base class beyond
  holding its list are not modelled: they produce no SPF text.
- Macro lengths and prefix lengths are natural numbers. Negative values,
  which the code would write with a minus sign, are not modelled.
- Domains given as plain strings instead of `Domain` objects are not
  modelled. An `a`/`mx` domain is `Option<Domain>`, because any `Domain`
  object is truthy, including an empty one.
- The regular expression built from the delimiters is modelled by its
  effect: a split at every character of the delimiter set.
- Macros.ParseMacroText: reads back only delimiters drawn from RFC 7208's
  set `.-+,/_=`. The code accepts any delimiter text, and one starting with
  `r` or a digit would not read back.
- Macros.ParseOptionsText: the same restriction to RFC 7208's delimiters;
  the code also accepts, for example, a space as the delimiter.
- Records.RecordTokens: stated only for terms whose parts hold no space. A
  macro whose delimiter holds a space is written with that space, and the
  record text then does not split back into its terms.
- Terms.ParseCidrSuffix: reads back only domains whose text holds no `/`.
- Scenarios.SenderMacros, Scenarios.IncludeThenFail,
  Scenarios.NetworkSuffix and Scenarios.ReversedTruncated are stated for
  any text in place of one fixed example.
