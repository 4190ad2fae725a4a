# Buckwalter transliteration engine, modelled in Dafny

This project models the transliteration core of the obsidian-buckwalter
plugin. The plugin turns Buckwalter-encoded ASCII into Arabic script. It
rewrites only text that carries the two-character marker `b/`.

The core has two parts:

- **The code table** (`BUCKWALTER` in `main.ts`). It maps 48 ASCII symbols to
  one Arabic code point each. The values come from the `AR_LETTERS` constants.
  - `arabic_letters.dfy` holds the constants the table refers to.
  - `buckwalter_table.dfy` holds the table itself as `Lookup`, its key set
    `Keys`, and an independently written reverse listing `Inverse`. The reverse
    listing goes from code point back to symbol.
  - The table's rows are written in four groups, in the source's order:
    letters, diacritics, hamza carriers and tatweel, and the comma. This keeps
    each proof small.
- **The transform** (`buckwalterProccesser` and `toBuckwalter`), in
  `transliterator.dfy`.
  - `Process` is the entry point. An absent input (`null` in the source) is
    `None` and gives `""`.
  - `IsTransliterationRequest` is the source's `str.startsWith("b/")` test. A
    string that does not start with `b/` comes back unchanged.
  - Otherwise `DropMarker` removes the first two code points, and
    `Transliterate` replaces each remaining code point by `MapChar`. `MapChar`
    is the table value when there is one, and the character itself otherwise.
  - `ToBuckwalterLoop` is the source's accumulator loop, proved equal to the
    functional definition.

Strings are `seq<char>`, and a Dafny `char` is a Unicode scalar value. So
walking a string element by element is the source's `for … of` walk by code
point. `wrappers.dfy` holds the `Option` type.

A JavaScript object lookup `BUCKWALTER[c]` could also find inherited
properties such as `toString`. Every inherited property has a name longer
than one code point, so a single-character lookup only ever finds the
table's own 48 entries. That is why `Lookup` is a plain finite table.

## Model

| member | source | states |
|---|---|---|
| BuckwalterTable.Lookup | main.ts:72-122 | `BUCKWALTER[c]`: a table value, when there is one, is exactly one code point; which value each key gets is fixed by InverseOfLookup and LookupOfInverse |
| BuckwalterTable.LookupDefinedOnKeys | main.ts:72-122 | the table has an entry exactly for the symbols listed in `Keys`, and each entry is a single code point in the Arabic block |
| BuckwalterTable.LetterRows | main.ts:73-105 | the letter rows are defined exactly on the 33 letter symbols, with Arabic values |
| BuckwalterTable.MarkRows | main.ts:106-121 | the diacritic, hamza, tatweel and comma rows are defined exactly on their symbols, with Arabic values |
| BuckwalterTable.InverseOfLookup | main.ts:5-122 | every key's value is the code point the documented listing assigns to that key |
| BuckwalterTable.LookupOfInverse | main.ts:5-122 | every code point in the documented listing is the table value of the key the listing names |
| BuckwalterTable.LookupInjective | main.ts:73-121 | no two keys share a value |
| BuckwalterTable.KeysAreAscii | main.ts:73-121 | every key is a printable ASCII character |
| BuckwalterTable.ValueIsNotKey | main.ts:73-121 | no table value is itself a key |
| Transliterator.DropMarker | main.ts:157 | on a marked string, marker plus result gives back the input; the result is two code points shorter; a string shorter than two gives "" |
| Transliterator.MapChar | main.ts:160 | `BUCKWALTER[c] ?? c` is always exactly one code point; what it is, is stated by MapCharOnKeys |
| Transliterator.MapCharOnKeys | main.ts:160 | `BUCKWALTER[c] ?? c` gives the table value of a key, which is Arabic, and any other character unchanged |
| Transliterator.Transliterate | main.ts:158-161 | the loop's output has the payload's length, and position i is the image of payload position i |
| Transliterator.ToBuckwalter | main.ts:156-163 | the output is two code points shorter than the input (empty for an input shorter than two), and position i of the output is the image of input position i + 2 |
| Transliterator.ToBuckwalterLoop | main.ts:156-163 | the accumulator loop computes the same string as the functional definition |
| Transliterator.Process | main.ts:145-154 | absent input gives "", an unmarked string is returned unchanged, and a marked one becomes the per-position image of its payload |
| Transliterator.TransliterateAppend | main.ts:158-161 | transliterating a concatenation gives the concatenation of the transliterations |
| Transliterator.ProcessAppend | main.ts:149-161 | processing `b/` + s + t gives processing `b/` + s, followed by processing `b/` + t |
| Transliterator.NothingDropped | main.ts:157-161 | for a marked string, every payload character without an entry appears verbatim at the same index of the output, and every key appears there as its table value |
| Transliterator.SingleKey | main.ts:149-161 | `b/` followed by one key gives exactly that key's table value |
| Transliterator.OutputIsUntagged | main.ts:149-161 | a marked string's output never starts with `b/`, because `b` is a key and no table value is `b` |
| Transliterator.ProcessIdempotent | main.ts:145-161 | processing the output a second time returns it unchanged |
| Transliterator.MapCharInjective | main.ts:160 | two characters that are not table values and map alike are equal |
| Transliterator.TransliterateInjective | main.ts:158-161 | two payloads free of table values that transliterate alike are equal |
| Transliterator.KeyIsNotATableValue | main.ts:73-121 | no key appears in the reverse listing |
| Transliterator.ProcessDeterminesPayload | main.ts:149-161 | the output of a marked string whose payload uses only keys determines that payload |
| Transliterator.KeyAndValueCollide | main.ts:157-161 | without that restriction the output does not determine the payload: `b/A` and `b/` + Alef give the same output |
| Transliterator.UntaggedExamples | main.ts:145-153 | absent gives "", and "" and "b" are returned unchanged |
| Transliterator.DigitExample | main.ts:157-161 | `b/1` gives "1" |
| Transliterator.AlmExample | main.ts:157-161 | `b/Alm` gives U+0627 U+0644 U+0645 |
| Transliterator.CommaExample | main.ts:157-161 | `b/, b` gives U+060C, a space, then U+0628 |

## Left out

- The plugin class, `onload` and the Markdown post-processor (main.ts:124-143). They register a callback with the Obsidian host and edit the rendered DOM, and the host API is not part of this model. The model covers only the pure function that callback applies to each text.
- The `Plugin` import (main.ts:1). It is a framework type with no behaviour in the core.
- The `AR_LETTERS` entries the table never uses: Placeholder, ArabicQuestionMark, the angle quotation marks, Period, Colon, QuotationMark and EmDash (main.ts:17-28). No input can reach them through the transform.
- The count of 48 keys is not proved as a cardinality. The `Keys` listing names 48 symbols. Proving that no symbol is listed twice costs the solver far more than the rest of the project combined.
- UTF-16 details such as lone surrogates. A Dafny `char` is always a Unicode scalar value. The marker is ASCII, so `substring(2)` removes exactly two code points, as `DropMarker` does.
- A table value may in principle be a sequence of several code points. The code never uses one: every value is a single code point. The model follows the code, so `Lookup` values are one-code-point strings, and the transform preserves length.
