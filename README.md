# alchemy-i18n bootstrap, modelled in Dafny

This project models the core of `bootstrap.js` from the alchemy-i18n plugin.
That core covers four things.

- **Translation handles.** `__(domain, key, params)` and
  `__def(domain, key, defaults)` build a fresh `StaticString` handle on every
  call. The constructor normalises its arguments: when `key` is not a string,
  every argument moves one place right and the domain becomes `"default"`.
- **The shared `seen` registry.** It maps domain, then key, to the first
  handle built for that pair. It is the registry that deduplicates keys.
  Filing a new pair schedules exactly one deferred `register(domain, key)`
  job. A later construction never replaces the stored handle. Its defaults
  are merged into the stored handle only when the stored one has none
  (first write wins).
- **Textual forms.** `toHTML` renders a `<hawkejs data-i18n ...>` element;
  `toJSON` and `toString` both return it. `replace` rewrites the key.
- **Countries.** At start-up the country list gets one handle per country
  code of three or more characters. `findCountry` returns the alpha3 code
  for a free-text English country name, using a fuzzy similarity score.

The modules follow the source's structure:

- `Js`: JavaScript values, truthiness and conversion to a property key.
- `Strings`: `indexOf` and `String.prototype.replace` with a string needle.
- `Interning`: the registry as values (`State`), what one construction does
  (`Step`), a sequence of constructions (`Run`), and what they guarantee.
- `StaticStrings`: the `StaticString` class and the `Registry` class that
  holds `seen` and the log of scheduled jobs. They are updated in place. The
  constructor is proved to act on the registry exactly as `Step` says.
- `Markup`: `toHTML`, `toJSON`, `toString` and `replace`. A reader for the
  generated element serves as the partner of `toHTML`.
- `Countries`: the country-list loop and `findCountry`. Each is an
  imperative method proved against a specification function.

## Model

| member | source | states |
|---|---|---|
| Interning.NormalizeShape | bootstrap.js:21-26 | A string key keeps all four arguments. Any other key shifts them one place right, with domain "default". |
| Interning.DefaultDomainShape | bootstrap.js:21-26 | The call `(key, placeholders, extra)` with the domain omitted means the same as `("default", key, placeholders, extra)`. |
| Interning.DefWithoutDomain | bootstrap.js:139-141 | `__def(key, defaults)` with the domain omitted files the defaults as placeholders, and its defaults are `null`. |
| Interning.Intern | bootstrap.js:34-41 | Creating the row if missing and setting `seen[d][k]` defines that slot with the value. Every other slot keeps its presence and its value. |
| Interning.StepSlots | bootstrap.js:34-42 | After a construction, a slot is defined exactly when it was defined before or is the construction's own slot. |
| Interning.StepEffect | bootstrap.js:34-52 | One construction: its slot is defined, and a job is scheduled exactly when the slot was new. A new slot stores the construction. An existing slot keeps its domain, key and placeholders. It takes the new defaults only when those are truthy and it has none. All other slots are unchanged. |
| Interning.ScheduleNew | bootstrap.js:38-48 | Filing a new slot and scheduling its one job keeps every slot at exactly one job. |
| Interning.StepInv | bootstrap.js:34-48 | A construction keeps the registry invariant: every entry is filed under its own slot, and every filed slot has exactly one scheduled job while other slots have none. |
| Interning.StepIdempotent | bootstrap.js:18-53 | Constructing the same arguments twice in a row leaves the registry as one construction does. |
| Interning.RunInv | bootstrap.js:34-48 | The registry invariant holds after any sequence of constructions. |
| Interning.RunSlots | bootstrap.js:34-42 | Starting from an empty registry, a slot is defined exactly when some construction asked for it. |
| Interning.ScheduledExactlyOnce | bootstrap.js:38-48 | Starting from an empty registry, each requested pair has exactly one scheduled job however often it was requested. Other pairs have none. |
| Interning.RunKeepsIdentity | bootstrap.js:38-42 | A stored entry keeps its domain, key and placeholders through any later constructions. |
| Interning.FirstRequestStored | bootstrap.js:38-42 | Right after the first construction that asks for a slot, the slot holds exactly that construction. |
| Interning.FirstConstructionWins | bootstrap.js:34-42 | After any sequence of constructions, a requested slot holds the domain, key and placeholders of the first construction that asked for it. |
| Interning.DefaultsNeverOverwritten | bootstrap.js:50-52 | Once a stored entry has truthy defaults, no later construction changes it. |
| StaticStrings.StaticString.constructor | bootstrap.js:18-53 | The handle's fields are the normalised arguments. The registry keeps its invariant and gains at most this handle. Its abstract state is `Step` applied to the old one. `seen` is unchanged when the slot was taken, and otherwise has this handle filed. |
| StaticStrings.Registry.constructor | bootstrap.js:3 | The shared `seen` table starts empty with no jobs scheduled, and the invariant holds. |
| StaticStrings.Registry.Store | bootstrap.js:34-48 | Filing a handle under its free slot creates the row if missing and sets the slot. It appends exactly one job for that pair and keeps the invariant. The abstract state is the interning part of `Step`. |
| StaticStrings.Registry.Merge | bootstrap.js:50-52 | The stored handle takes the defaults only when they are truthy and it has none. Nothing else in the registry changes. |
| StaticStrings.Registry.AbstractInv | bootstrap.js:34-48 | The object registry's invariant implies the value-level invariant of its abstract state. |
| StaticStrings.Translate | bootstrap.js:122-124 | `__(domain, key, params)` returns a fresh handle built from `(domain, key, params)` with no defaults, acting on the registry as `Step` says. |
| StaticStrings.TranslateDef | bootstrap.js:139-141 | `__def(domain, key, defaults)` returns a fresh handle built from `(domain, key, null, defaults)`, acting on the registry as `Step` says. |
| Strings.IndexOf | bootstrap.js:224 | The result is the least position where the needle occurs, or None when it occurs nowhere. |
| Strings.SubstituteLiteral | bootstrap.js:63 | A replacement without `$` is inserted as it is. |
| Strings.ReplaceLiteralFirst | bootstrap.js:63 | A `$`-free replacement replaces exactly the first occurrence and keeps the text around it. |
| Strings.ReplaceAbsent | bootstrap.js:224 | Without an occurrence of the needle, `replace` returns its input. |
| Strings.StripLeading | bootstrap.js:224 | Replacing a leading needle with the empty string leaves the rest. |
| Markup.Replace | bootstrap.js:62-64 | `replace` succeeds exactly when the key is a string. Any other key has no `replace` method, and the call fails. |
| Markup.ParseToHTML | bootstrap.js:76-81 | Reading back the `toHTML` element gives exactly the encoded domain, the encoded key and the placeholder payload, provided the encoder yields no double quote. |
| Markup.NoParamsWhenFalsy | bootstrap.js:79 | Falsy placeholders give an empty `data-params` attribute. |
| Markup.SerialisationsAgree | bootstrap.js:92-107 | `toJSON()` and `toString()` both equal `toHTML()`. |
| Countries.ListCountry | bootstrap.js:192 | `__('countries', name)` for a listed country gives a handle in domain "countries" keyed by the name. A missing name gives key "countries" in domain "default". |
| Countries.BuildCountryList | bootstrap.js:185-193 | The list's keys are exactly the codes of three or more characters, each mapped to its country's handle. The registry moves as the listed constructions, in order, say. |
| Countries.FirstExact | bootstrap.js:238-241 | The first considered entry whose score is exactly 1, and no considered entry before it scores 1. |
| Countries.Best | bootstrap.js:243-247 | The running best is considered and scores above 0. It scores at least as much as every considered entry so far, and strictly more than every earlier one. None means no considered entry scored above 0. |
| Countries.FindCountry | bootstrap.js:206-251 | The loop returns exactly `CountryMatch`, the specification of `findCountry`. |
| Countries.NoNameNoMatch | bootstrap.js:214-216 | A missing or empty name gives undefined. |
| Countries.GreatBritainFirst | bootstrap.js:219-221 | A name scoring above 0.7 against "Great Britain" at fuzziness 0.9 gives "GBR", whatever the table holds. |
| Countries.ExactMatchWins | bootstrap.js:236-241 | The first considered entry scoring exactly 1 wins, whatever the later entries score. |
| Countries.BestMatchSelected | bootstrap.js:243-250 | Without an exact match, the result is the alpha3 code of the earliest entry with the strictly highest positive score. It is undefined exactly when no considered entry scores above 0. |
| Countries.MatchComesFromTable | bootstrap.js:226-250 | Any result is "GBR" or the alpha3 code of a considered table entry. |
| Countries.LeadingTheIgnored | bootstrap.js:224 | "The X" and "X" give the same result when neither is close to "Great Britain" and "X" contains no "The ". |

## Left out

- Numbers are integers. JavaScript floating point, `NaN` and the number-to-string rules for fractions and exponents are not modelled. Only the decimal form of integers is used for property keys.
- `seen` and its rows are plain maps. The prototype chain is not modelled, so keys such as `"constructor"` or `"__proto__"`, which resolve through `Object.prototype` in the source, behave here like any other key.
- `Markup.Replace`: regular-expression needles and function replacements are not modelled. Only a string needle and a string replacement are.
- The deferred job is recorded as a `Registration` in the registry's log. `alchemy.ready`, `lowPriority` with its 500 ms delay, and `Model.get('StaticString').register` are not modelled, nor is what registering persists.
- The start-up hook and middleware (bootstrap.js:145-182) are not modelled. They load translations from the database and are I/O.
- Loading `country-data` is not modelled. The reference entries are a parameter, in iteration order.
- `encodeURI`, `JSON.stringify` and the similarity library's `String.prototype.score` are parameters. Their internals, including floating-point scoring, are not modelled.
- `Countries.BuildCountryList` returns the list as a fresh map instead of filling the shared `countries` object in place.
- `Countries.FindCountry` takes the name as an optional string. Falsy non-string names (`0`, `false`, `NaN`, `null`) are covered by `None`, and truthy non-string names are not modelled.
- `StaticStrings.Registry.Store` creates a missing row for the domain only when it files a handle. In the source the row is created just before the key test, but a missing row means the key is missing too, so the stored state is the same.
