# form-serialization, modelled in Dafny

The model covers the core of `form-serialization` (`src/index.js`). That core turns the controls of an HTML form into either an `application/x-www-form-urlencoded` string or a nested JavaScript object (a "hash"). It has five parts, each in its own module:

- **`KeyPath`** (`keypath.dfy`) models `parseKeys`.
  - It splits a field name such as `people[0][name]` into segments: the leading text before any bracket, dropped when empty, then every `[...]` group without nested brackets, taken left to right.
  - Text between or after the groups is ignored.
  - `Segments` specifies the result, written in terms of a model of the global regular expression's `exec`.
  - `ParseKeys` is the `exec` loop itself, proved to return `Segments`.
- **`Tree`** (`tree.dfy`) models `hashAssign`.
  - It places one value into the result tree, consuming one segment per step.
  - A node is a string, a plain object (`Obj`) or an array (`Arr`). An array may be sparse (`None` slots) and may carry named properties.
  - `[]` appends. On a plain object it appends to the reserved `_values` field.
  - A bracket content made entirely of ASCII digits is an array index. Any other content names a field.
  - A content containing a line terminator is not matched by `^\[(.+?)]$`, so the whole segment, brackets included, is used as a field name.
  - The strict-mode `TypeError`s are modelled as an error result:
    - writing a property of a string, of `undefined` or of `null`;
    - pushing onto a `_values` field that is not an array;
    - calling `push` on an array that an earlier write gave an own `push` property, which holds a string or an object and so is not callable.
- **`HashSerializer`** (`hash_serializer.dfy`) models `hashSerializer`.
  - A key with a bracket group goes through `Segments` and `Assign` against the root object.
  - A plain key is written directly: a repeated key turns the field into an array, and a falsy earlier value is replaced.
- **`UrlEncoding`** (`url_encoding.dfy`) models `strSerialize`.
  - In values it normalises line breaks to CR LF and encodes spaces as `+` (section 17.13.4 of HTML 4.01).
  - Percent-encoding follows `encodeURIComponent` (section 19.2.6.5 of ECMA-262), including the UTF-8 encoding of characters outside ASCII.
  - A decoder (`FormDecode`, `Utf8Decode`) serves as the partner of the encoder.
- **`Scanner`** (`scanner.dfy`) models `serialize`. It implements the "successful controls" policy of section 17.13.2 of HTML 4.01:
  - option normalisation (`Normalize`);
  - the skip rules, whose case-insensitive patterns have no `u` flag, so that no character outside ASCII folds onto their ASCII letters and ASCII case folding is exact for them;
  - the checkbox and radio rules;
  - the `disabled` and `empty` options;
  - multi-select fan-out;
  - the deferred pass that emits an empty value for every radio group with nothing checked.

  The serializer is a parameter. `Emissions` is the specification: the exact sequence of `(key, value)` pairs the serializer receives. `Serialize` is the loop over the controls, proved to fold the serializer over `Emissions`. `SerializeForm` is the entry point with the two built-in serializers.

`Base` (`base.dfy`) holds `Option`, `Result` (with `TypeError` as its failure), `Pair` and `Fold`. `Fold` is the left fold of a serializer over pairs. `Numbers` (`numbers.dfy`) holds decimal digit strings. `Conformance` (`conformance.dfy`) states cases of the repository's test suite about the model.

Inputs that come from the host environment are parameters of the model:
- the list of controls;
- each control's `nodeName`, `type`, `name`, `value`, `checked`, `disabled` and options (each with `value` and `selected`);
- the serializer.

## Model

| member | source | states |
|---|---|---|
| Base.FoldSnoc | src/index.js:137 | `Fold`, the accumulation `result = serializer(result, key, value)`, takes one more pair by one more call of the serializer on the result so far |
| Base.FoldAppend | src/index.js:63-147 | folding two batches of pairs one after the other is folding their concatenation, so the accumulator can be carried from one loop to the next |
| KeyPath.Segments | src/index.js:157-172 | every segment is non-empty, and a key holding a bracket group yields at least one segment |
| KeyPath.ParseKeys | src/index.js:157-172 | the prefix match followed by the `exec` loop returns exactly `Segments(s)` |
| KeyPath.Exec | src/index.js:16 | a match found from `lastIndex` lies inside the string, after `lastIndex`, and is not empty (that it is the leftmost group is `ExecIsLeftmost`) |
| KeyPath.ExecMatchIsGroup | src/index.js:16 | every match is a `[`, then text without brackets, then `]` |
| KeyPath.GroupsAreGroups | src/index.js:167-169 | every segment pushed by the loop is such a group |
| KeyPath.ExecIsLeftmost | src/index.js:16 | `exec` returns the leftmost group: no group starts between `lastIndex` and the match, the only group starting at the match is the match, and when nothing is found no group starts at or after `lastIndex` |
| KeyPath.GroupFound | src/index.js:167-169 | every bracket group starting at or after `lastIndex` is one of the groups the loop collects from there |
| KeyPath.EveryGroupIsASegment | src/index.js:157-172 | every bracket group anywhere in the key is one of its segments |
| KeyPath.GroupsOfWrapped | src/index.js:167-169 | on text made of groups `[c1][c2]...`, the loop yields exactly those groups, in order |
| KeyPath.NoBracketsIsOneSegment | src/index.js:159-165 | a key without `[` or `]` yields exactly `[key]` (nothing when it is empty) |
| KeyPath.LeadingBracketHasNoPrefix | src/index.js:159-165 | a key starting with a bracket yields no prefix segment, only groups |
| KeyPath.SegmentsRoundTrip | src/index.js:157-172 | for a prefix followed by groups, the segments are the prefix (when non-empty) then the groups, and concatenating them gives back the key |
| KeyPath.SegmentsOfNestedAppend | src/index.js:157-172 | `a[b][]` yields `["a", "[b]", "[]"]` |
| KeyPath.StrayTextIgnored | src/index.js:16 | text between or after groups, and an unmatched `[`, are skipped: `a[b]x]y[c]` yields `["a","[b]","[c]"]`, `a[b[c]` yields `["a","[c]"]` |
| Numbers.NatToString | src/index.js:218-229 | the canonical spelling of an index is a digit string without a leading zero |
| Numbers.DecimalValueOfNatToString | src/index.js:218-229 | reading back the canonical spelling of a number gives the number |
| Numbers.NatToStringInjective | src/index.js:218-229 | different indices have different canonical spellings, so they name different fields of an object |
| Tree.SetSlot | src/index.js:229 | writing index `n` grows the array to `n + 1` slots when `n` is past its end, puts the value at `n` and leaves every other slot as it was |
| Tree.Between | src/index.js:191 | when `^\[(.+?)]$` matches, the captured content is non-empty and the segment is that content in brackets |
| Tree.BetweenOfBracket | src/index.js:191 | a bracketed content without line terminators is matched, and its capture is the content |
| Tree.Assign | src/index.js:185-233 | assigning at least one segment below an object gives an object |
| Tree.Append | src/index.js:193-207 | `[]` below an object gives an object (the new value goes to its `_values` field, never replacing the object) |
| Tree.TargetField | src/index.js:211-229 | a segment the pattern does not match names itself; a bracket content that is not a digit string names itself; a digit string names the canonical spelling (no leading zero) of the same number |
| Tree.AppendOntoArray | src/index.js:193-197 | `[]` on an absent or array node appends exactly one element, built from the remaining segments, after the existing slots, keeping the named properties; it throws exactly when building that element throws or the array has an own `push` |
| Tree.AppendIntoMapping | src/index.js:198-206 | `[]` on an object appends to its `_values` array (created when falsy) and leaves every other field as it was; it throws exactly when `_values` is truthy but not an array, or is an array with an own `push`, or when building the element throws |
| Tree.RepeatedAppendKeepsOrder | src/index.js:193-197 | repeated `[]` assignments keep the old elements and add one element per value, in encounter order; on an array with an own `push` they throw |
| Tree.IndexWrite | src/index.js:227-230 | a digit content writes that index of the array (created when absent), grows it to just past the index when needed, and leaves every other slot and every named property as it was |
| Tree.AppendAfterIndex | src/index.js:193-230 | after an index write, a `[]` appends at the array's current length, one past the highest index when that index was beyond the old end, keeping every earlier slot; it throws exactly when the array has an own `push` |
| Tree.WriteIntoMapping | src/index.js:211-229 | any segment other than `[]` on an object writes only the field it names: the bare segment, the content, or the canonical spelling of the index. With no segment left, the value replaces that field |
| Tree.NamedWriteOnArray | src/index.js:224-226 | a non-numeric content on an array sets a named property of the array and leaves its slots as they were |
| Tree.StringRejectsSegments | src/index.js:211-229 | a non-empty string below a further segment throws a `TypeError` (strict-mode write of a property of a primitive) |
| Tree.AbsentPathBuilds | src/index.js:185-233 | below an absent node, bracket groups without line terminators always build a fresh subtree without throwing |
| Tree.SetSlotsCommute | src/index.js:229 | writes to two different slots commute |
| Tree.IndexWritesCommute | src/index.js:214-230 | assignments at two different indices give the same result in either order, whatever node they start from |
| Tree.IndexWritesCommuteOnArray | src/index.js:227-230 | index writes at different indices commute on an absent or array node |
| Tree.IndexWritesCommuteOnMapping | src/index.js:214-229 | index writes at different indices commute on an object, where they write the fields named by the indices' canonical spellings |
| HashSerializer.HashSerialize | src/index.js:242-272 | no field of the result object is ever removed; a plain key adds at most its own field (the branches are stated by the lemmas below) |
| HashSerializer.HashStep | src/index.js:122-144 | a serializer call after one that threw does not run: a thrown accumulator stays thrown, and a result object keeps every field of the one before |
| HashSerializer.ThrownStaysThrown | src/index.js:63-147 | once one call has thrown, feeding any further pairs still gives the TypeError |
| HashSerializer.ThrowAborts | src/index.js:63-147 | when the pairs up to some point throw, the whole hash serialization throws |
| HashSerializer.PlainKeyTouchesOnlyItsField | src/index.js:251-270 | a plain key throws exactly when its field holds an array with an own `push`; otherwise it changes only its own field. A falsy old value (absent or `""`) is replaced by the string. A truthy one becomes the first elements of an array (the old array's elements, or the old value alone), with the new value last |
| HashSerializer.RepeatedPlainKeyKeepsOrder | src/index.js:255-269 | serializing several values under one plain key, the first non-empty, collects them into one array in order, with every other field unchanged |
| HashSerializer.BracketedKeyWritesPrefixField | src/index.js:243-250 | a key `p[c1][c2]...` writes only the field `p` of the root, with what assigning the groups below its old content gives, and throws exactly when that assignment throws |
| HashSerializer.LineTerminatorGroupIsPlain | src/index.js:191 | a group holding a line terminator is neither matched as a bracket content nor taken as `[]` |
| HashSerializer.LineTerminatorInGroupThrows | src/index.js:191-212 | such a group below a falsy field throws |
| HashSerializer.LineTerminatorInGroupNamesField | src/index.js:191-212 | such a group below an object sets the field named by the whole group, brackets included |
| UrlEncoding.Utf8 | src/index.js:284 | a character is encoded as 1 to 4 bytes; exactly the ASCII characters take one byte, which is their code; every byte of a longer encoding is at least 0x80 |
| UrlEncoding.Utf8RoundTrip | src/index.js:284 | decoding the UTF-8 of a text gives back the text |
| UrlEncoding.HexDigitValue | src/index.js:284 | the upper-case hex digit of a nibble reads back as the nibble and is neither `%` nor `+` |
| UrlEncoding.EncodeURIComponent | src/index.js:284-288 | every character becomes one to twelve characters (itself, or `%XY` for each of its 1 to 4 UTF-8 bytes), so the length grows at most twelvefold |
| UrlEncoding.EncodeAppend | src/index.js:284-288 | percent-encoding, with or without the `+` rule, encodes a concatenation piece by piece |
| UrlEncoding.Crlf | src/index.js:283 | the rewrite only adds carriage returns, at most one per character |
| UrlEncoding.ReplacePercent20 | src/index.js:287 | the rewrite never lengthens the text, and each output character stands for at most three input characters |
| UrlEncoding.StrSerialize | src/index.js:281-289 | the result is the old string, then `&` when the old one is non-empty, then the encoded key, `=`, and the value with line breaks normalised, percent-encoded and with every `%20` replaced by `+` |
| UrlEncoding.FormEncodeRewrite | src/index.js:284-287 | replacing `%20` by `+` after `encodeURIComponent` is the same as encoding each space as `+` and each other character as `encodeURIComponent` does, which is the `application/x-www-form-urlencoded` encoding |
| UrlEncoding.FormValueRoundTrip | src/index.js:283-287 | decoding an encoded value (`+` as space, `%XX` as a byte) gives back the UTF-8 of the value |
| UrlEncoding.ComponentRoundTrip | src/index.js:288 | decoding an encoded key gives back the UTF-8 of the key |
| UrlEncoding.ComponentAlphabet | src/index.js:284-288 | an encoded key never contains `&`, `=`, `+` or a space, and an encoded value never contains `&`, `=` or a space, so the pairs can be split again |
| UrlEncoding.CrlfIsNormal | src/index.js:283 | after the line-break rewrite every line feed follows a carriage return |
| UrlEncoding.CrlfIdempotent | src/index.js:283 | rewriting line breaks a second time changes nothing |
| UrlEncoding.StrFoldIsJoin | src/index.js:281-289 | folding the string serializer from `""` over the pairs gives the encoded pairs joined by `&` |
| UrlEncoding.JoinedNonEmpty | src/index.js:288 | at least one pair gives a non-empty string |
| Scanner.Normalize | src/index.js:48-52 | `null` options throw and nothing else does. Output is a hash exactly for a truthy non-object and for an options object whose `hash` is not `false`. `disabled` and `empty` are on only when an options object sets them |
| Scanner.FilterPatterns | src/index.js:10-13 | the node-name pattern, ignoring case, accepts `INPUT`, `textarea` and `SELECT` and refuses `button` and `fieldset`; the type pattern accepts `Submit` and `reset` but not `submit2` or `text` |
| Scanner.SuccessNode | src/index.js:13 | a node name passes exactly when its lower-cased start is `input`, `select`, `textarea` or `keygen` |
| Scanner.Submitter | src/index.js:10 | a type submits exactly when its whole lower-cased text is `submit`, `button`, `image`, `reset` or `file` |
| Scanner.Eligible | src/index.js:64-72 | a control without a name, disabled without the `disabled` option, not a form field, or of a submitting type is skipped; every other named, enabled field is kept |
| Scanner.Prepared | src/index.js:80-90 | only an unchecked checkbox or radio loses its value; with `empty` an unchecked checkbox keeps the empty value instead |
| Scanner.Emit | src/index.js:108-137 | a control other than a multi-select gives its one pair; a multi-select gives at most one pair per option plus a placeholder, and at least one pair with `empty` |
| Scanner.ControlPairs | src/index.js:63-137 | only a control that passes the filters contributes; one that is not a multi-select gives at most one pair, under its name |
| Scanner.RadioStep | src/index.js:92-97 | only an eligible radio under `empty` changes the store: its name is recorded in order of first appearance and marked checked once any of its radios is checked; other names keep their marks |
| Scanner.SkippedControls | src/index.js:64-72 | a control with an empty name, disabled without the `disabled` option, with another node name, or of a submitting or file type contributes nothing and leaves the radio store alone |
| Scanner.PlainField | src/index.js:84-137 | any other non-toggle, non-multi-select control gives its one pair, except that an empty value is dropped without `empty` |
| Scanner.UncheckedToggleWithoutEmpty | src/index.js:80-105 | without `empty`, an unchecked checkbox or radio contributes nothing |
| Scanner.UncheckedCheckboxWithEmpty | src/index.js:87-89 | with `empty`, an unchecked checkbox gives `(name, "")` |
| Scanner.CheckedToggle | src/index.js:80-105 | a checked checkbox or radio gives `(name, value)`, except that an empty value is dropped without `empty` |
| Scanner.NoEmptyValuesWithoutEmpty | src/index.js:102-105 | without `empty`, no pair with an empty value ever reaches the serializer |
| Scanner.OptionStep | src/index.js:110-127 | one more option adds its pair exactly when it is chosen |
| Scanner.OptionPairsMeaning | src/index.js:110-127 | every pair has the select's key and a non-empty value (an empty one only under `empty`); a value is emitted exactly when some option with that value is selected and allowed; there are at most as many pairs as options, and none exactly when no option is chosen |
| Scanner.OptionPairsSplit | src/index.js:110-127 | the pairs of two consecutive runs of options are those of the first run followed by those of the second, so the pairs follow option order |
| Scanner.OptionPairsOfOne | src/index.js:111-126 | a single option gives exactly one pair `(key, value)` when it is selected and has a value (or an empty one under `empty`), and none otherwise |
| Scanner.SelectKeyShape | src/index.js:121-125 | in hash mode the key of a multi-select always ends in `[]` (appended unless already there); in string mode it is the name |
| Scanner.MultiSelectFanOut | src/index.js:102-135 | without `empty`, a multi-select whose own value (that of its first selected option) is empty is dropped whole, whatever its later options hold; otherwise it gives its chosen options' pairs or, with `empty` and nothing chosen, one `(name, "")` |
| Scanner.PerControlAppend | src/index.js:63-138 | the pairs of consecutive controls are the pairs of each, in control order |
| Scanner.StoreAfterValid | src/index.js:60-61 | the order of the radio store lists exactly the names of its map, each once |
| Scanner.StoreAfterMeaning | src/index.js:92-97 | with `empty`, the store holds exactly the names of the eligible radios, each marked checked exactly when one of its radios was checked |
| Scanner.PendingMeaning | src/index.js:142-146 | the deferred pass visits exactly the stored names that were never checked |
| Scanner.PendingDistinct | src/index.js:142-146 | the deferred pass visits each name at most once |
| Scanner.PlaceholderIff | src/index.js:141-147 | with `empty`, `(n, "")` is emitted by the deferred pass exactly when some eligible radio is named `n` and none of them was checked, and at most once per name |
| Scanner.VisitOptions | src/index.js:110-132 | the option loop folds the serializer over the chosen options' pairs and reports whether any option was chosen |
| Scanner.VisitMultiSelect | src/index.js:108-135 | the multi-select branch folds the serializer over that control's pairs: its chosen options, then the placeholder when none is chosen under `empty` |
| Scanner.VisitControl | src/index.js:63-138 | one step of the control loop folds the serializer over that control's pairs, and updates the radio store with that control's `RadioStep`: an eligible radio's name is added when first seen, and marked checked once any radio of that name is checked |
| Scanner.VisitRadioStore | src/index.js:141-147 | the deferred loop folds the serializer over one `(name, "")` pair per never-checked name, in store order |
| Scanner.Serialize | src/index.js:54-149 | the result is the serializer folded, from the initial result, over every control's pairs in control order followed, with `empty`, by the radio placeholders |
| Scanner.SerializeForm | src/index.js:47-150 | `null` options throw. No options, a falsy non-object, or `hash: false` give a URL-encoded string; `true`, or an options object without `hash: false`, give an object unless a write throws. String output is the `&`-join of the encoded emissions. Hash output is the hash serializer folded over them, throwing when any step throws |
| Conformance.SpaceInValue | test/index.js:96-108 | a space of a value is sent as `+` (`bar 1` as `bar+1`) |
| Conformance.PlainPairsJoin | test/index.js:96-108 | pairs made of unreserved characters go out unchanged, in order, joined by `&` |
| Conformance.BracketsInKey | test/index.js:165-175 | a plain name followed by `[]` is sent with the brackets as `%5B%5D`, as `foo[]` is sent as `foo%5B%5D` |
| Conformance.LineBreaksInValue | src/index.js:283 | both a line feed and a carriage return plus line feed are sent as `%0D%0A` |
| Conformance.EncodeUnreservedText | src/index.js:284 | unreserved characters are not encoded |
| Conformance.MisplacedAppendCollectsValues | test/index.js:513-525 | `[][a]` then `[b][c]` give `{_values: [{a: v1}], b: {c: v2}}` |
| Conformance.DigitPrefixIsAName | test/index.js:355-380 | `123abc` is not an index and names the field `123abc` |

## Left out

- `deserialize` (`src/index.js:297-372`) is not part of this model. It relies on the host DOM's lookup of named controls and mutates live controls.
- How the browser computes a control's `value`, `checked` and `selected` (including the "on" default of a checkbox and the value of a multi-select) is not modelled. These are inputs.
- A missing form, or one without `elements`, is the empty control list.
- The custom serializer (`options.serializer`) is a pure function parameter of `Serialize`. Side effects in it are not modelled. `SerializeForm` covers only the two built-in serializers.
- The write-back `options.hash = true` into the caller's object is an observable mutation of its argument. It is not modelled: only the normalised settings are.
- `Tree.Assign`: the source mutates the tree in place and consumes `keys` with `shift()`. The model is a pure function from the old tree to the new one over a sequence of segments. Aliasing of the caller's result object is therefore not captured.
- `Tree.Assign`: JavaScript's `Number()` also accepts surrounding whitespace, a sign, decimals, exponents, hexadecimal and `Infinity`, and whitespace-only content (which gives 0). The model keeps only the rule that content made entirely of ASCII digits is an index; every other content is a name.
- `Tree.Assign`: indices of 2**32 - 1 and above (array property names rather than indices in JavaScript) and digit strings beyond 2**53 (where `Number()` rounds) are treated as exact indices.
- `Tree.Assign`: names inherited from `Object.prototype` (such as `constructor` or `__proto__`) are treated as absent fields, as if every object had no prototype.
- `Tree.Assign`: on an array, the content `length` is treated as a plain named property. JavaScript instead sets the array's length, which truncates or extends the array, throws a `RangeError` for a value that is not a valid length, or throws a `TypeError` when further segments meet the number it reads. Modelling this needs `Number()` on the assigned value, which the model does not have.
- `Tree.Assign`: on an array, contents naming inherited `Array.prototype` methods (`map`, `slice`, ...) are treated as absent named properties. JavaScript reads the inherited function and writes through it. An own `push` property is modelled: a later push throws.
- `Tree.NamedWriteOnArray`: its promise that the slots stay as they were holds for every name except `length`, whose write the model does not give the array-length meaning (see the `length` line for `Tree.Assign`).
- `Tree.AppendOntoArray`: this holds for the arrays the model builds. An array whose `length` was set through a `[length]` segment has no counterpart in the model (see the `length` line for `Tree.Assign`).
- `Tree.RepeatedAppendKeepsOrder`: this holds for the arrays the model builds. An array whose `length` was set through a `[length]` segment has no counterpart in the model (see the `length` line for `Tree.Assign`).
- `Tree.AppendAfterIndex`: this holds for the arrays the model builds. An array whose `length` was set through a `[length]` segment has no counterpart in the model (see the `length` line for `Tree.Assign`).
- `HashSerializer.HashSerialize`: the plain-key branch reads `result[key]` directly. The same two gaps as for `Tree.Assign` apply to it: a name inherited from `Object.prototype` reads as absent, and an array whose `length` was set through a `[length]` segment has no counterpart in the model.
- `HashSerializer.PlainKeyTouchesOnlyItsField`: for a name inherited from `Object.prototype` (such as `constructor`) JavaScript reads a truthy inherited value and stores `[inherited, value]`, where the model stores the string. For an array whose `length` was set through a `[length]` segment, JavaScript pushes at that length, where the model appends after the last slot.
- `HashSerializer.RepeatedPlainKeyKeepsOrder`: under a name inherited from `Object.prototype`, JavaScript stores the inherited value as the first element, before the serialized values. The model assumes the field starts out absent.
- `Scanner.VisitRadioStore`: JavaScript enumerates integer-like keys of the radio store first, in ascending order. The model uses insertion order for every name.
- `UrlEncoding.EncodeURIComponent`: Dafny characters are Unicode scalar values, so the lone surrogates for which `encodeURIComponent` throws a `URIError` cannot occur.
- `UrlEncoding.Utf8Decode`: the decoder is a partner for the round-trip lemmas only. It is lenient (it does not reject overlong forms).
- The enumeration order of an object's keys is not modelled, because fields are a `map`.
