/** The control scanner (`serialize`): walks the controls of a form, applies
    the "successful controls" policy of section 17.13.2 of HTML 4.01, and feeds
    each surviving `(name, value)` pair to a serializer. */
module Scanner {
  import opened Base
  import Tree
  import HashSerializer
  import UrlEncoding

  /** An `<option>` of a select box, as the browser reports it */
  datatype SelectOption = SelectOption(value: string, selected: bool)

  /** One element of `form.elements`, with the properties the scanner reads.
      `value`, `checked` and `selected` are what the browser computed. */
  datatype Control = Control(
    nodeName: string,
    controlType: string,
    name: string,
    value: string,
    checked: bool,
    disabled: bool,
    options: seq<SelectOption>)

  /** The normalised options */
  datatype Config = Config(hash: bool, disabled: bool, empty: bool)

  /** The `options` argument as the caller passed it: not an object (with its
      truthiness), `null`, or an object whose `hash` may be missing and whose
      other settings are read by truthiness */
  datatype RawOptions =
    | NotAnObject(truthy: bool)
    | NullOptions
    | Settings(hash: Option<bool>, disabled: bool, empty: bool)

  /** A non-object becomes `{hash: Boolean(options)}`; an object without
      `hash` is switched to hash output; `null` has type `'object'`, so
      reading its `hash` throws. */
  function Normalize(raw: RawOptions): (r: Result<Config>)
    ensures r.TypeError? <==> raw.NullOptions?
    // hash output for a truthy non-object, and for an object unless its
    // `hash` is set to false; string output otherwise
    ensures r.Ok? ==>
              (r.value.hash <==> raw == NotAnObject(true) || (raw.Settings? && raw.hash != Some(false)))
    // `disabled` and `empty` come only from an options object
    ensures r.Ok? ==> r.value.disabled == (raw.Settings? && raw.disabled)
    ensures r.Ok? ==> r.value.empty == (raw.Settings? && raw.empty)
  {
    match raw
    case NotAnObject(b) => Ok(Config(b, false, false))
    case NullOptions => TypeError
    case Settings(hash, disabled, empty) =>
      Ok(Config(if hash.None? then true else hash.value, disabled, empty))
  }

  /** ASCII-only lower-casing, which is what a case-insensitive pattern made
      of ASCII letters compares by */
  function Lower(c: char): char {
    if 'A' <= c <= 'Z' then (c as int - 'A' as int + 'a' as int) as char else c
  }

  predicate StartsWithIgnoringCase(s: string, word: string) {
    |word| <= |s| && forall i | 0 <= i < |word| :: Lower(s[i]) == word[i]
  }

  predicate EqualsIgnoringCase(s: string, word: string) {
    |s| == |word| && StartsWithIgnoringCase(s, word)
  }

  /** ASCII lower-casing of a whole string */
  function LowerAll(s: string): (r: string)
    ensures |r| == |s|
    ensures forall i | 0 <= i < |s| :: r[i] == Lower(s[i])
  {
    seq(|s|, i requires 0 <= i < |s| => Lower(s[i]))
  }

  /** The first `|word|` characters of `s`, lower-cased, are `word`. */
  predicate LowerPrefixIs(s: string, word: string) {
    |word| <= |s| && LowerAll(s[..|word|]) == word
  }

  /** Matching a prefix ignoring case is comparing the lower-cased prefix. */
  lemma StartsWithIsLowerPrefix(s: string, word: string)
    ensures StartsWithIgnoringCase(s, word) <==> LowerPrefixIs(s, word)
  {
    if |word| <= |s| {
      var l := LowerAll(s[..|word|]);
      assert forall i | 0 <= i < |word| :: l[i] == Lower(s[i]);
    }
  }

  /** Matching a whole word ignoring case is comparing the lower-cased text. */
  lemma EqualsIsLower(s: string, word: string)
    ensures EqualsIgnoringCase(s, word) <==> LowerAll(s) == word
  {
    StartsWithIsLowerPrefix(s, word);
    assert s[..|s|] == s;
  }

  /** `/^(?:input|select|textarea|keygen)/i`: node names that may be successful
      controls, those whose lower-cased start is one of the four words */
  predicate SuccessNode(nodeName: string)
    ensures SuccessNode(nodeName) <==>
              LowerPrefixIs(nodeName, "input") || LowerPrefixIs(nodeName, "select")
              || LowerPrefixIs(nodeName, "textarea") || LowerPrefixIs(nodeName, "keygen")
  {
    StartsWithIsLowerPrefix(nodeName, "input");
    StartsWithIsLowerPrefix(nodeName, "select");
    StartsWithIsLowerPrefix(nodeName, "textarea");
    StartsWithIsLowerPrefix(nodeName, "keygen");
    StartsWithIgnoringCase(nodeName, "input") || StartsWithIgnoringCase(nodeName, "select")
    || StartsWithIgnoringCase(nodeName, "textarea") || StartsWithIgnoringCase(nodeName, "keygen")
  }

  /** `/^(?:submit|button|image|reset|file)$/i`: types that submit and are
      never serialized, those whose lower-cased text is one of the five words */
  predicate Submitter(controlType: string)
    ensures Submitter(controlType) <==>
              LowerAll(controlType) in {"submit", "button", "image", "reset", "file"}
  {
    EqualsIsLower(controlType, "submit");
    EqualsIsLower(controlType, "button");
    EqualsIsLower(controlType, "image");
    EqualsIsLower(controlType, "reset");
    EqualsIsLower(controlType, "file");
    EqualsIgnoringCase(controlType, "submit") || EqualsIgnoringCase(controlType, "button")
    || EqualsIgnoringCase(controlType, "image") || EqualsIgnoringCase(controlType, "reset")
    || EqualsIgnoringCase(controlType, "file")
  }

  /** The control passes the first two filters of the scan */
  predicate Eligible(c: Control, cfg: Config)
    // a control without a name is skipped
    ensures Eligible(c, cfg) ==> c.name != ""
    // a disabled control is skipped unless the `disabled` option is set
    ensures Eligible(c, cfg) && c.disabled ==> cfg.disabled
    // only form fields that do not submit are kept
    ensures Eligible(c, cfg) ==> SuccessNode(c.nodeName) && !Submitter(c.controlType)
    // and every enabled, named field of a non-submitting type is kept
    ensures c.name != "" && !c.disabled && SuccessNode(c.nodeName) && !Submitter(c.controlType) ==>
              Eligible(c, cfg)
  {
    !((!cfg.disabled && c.disabled) || c.name == "")
    && SuccessNode(c.nodeName) && !Submitter(c.controlType)
  }

  predicate IsToggle(c: Control) {
    c.controlType == "checkbox" || c.controlType == "radio"
  }

  /** The value after the checkbox and radio rules: an unchecked box has no
      value, except that with `empty` an unchecked checkbox has the empty one. */
  function Prepared(c: Control, cfg: Config): (v: Option<string>)
    // only an unchecked checkbox or radio loses its value, and an unchecked
    // checkbox keeps an empty one under `empty`
    ensures v.None? <==> IsToggle(c) && !c.checked && !(cfg.empty && c.controlType == "checkbox")
    ensures v.Some? ==> v.value == if IsToggle(c) && !c.checked then "" else c.value
  {
    if cfg.empty && c.controlType == "checkbox" && !c.checked then Some("")
    else if IsToggle(c) && !c.checked then None
    else Some(c.value)
  }

  /** An option is serialized when selected and its value is non-empty, or
      empty but allowed by `empty`. */
  predicate Chosen(o: SelectOption, empty: bool) {
    o.selected && (o.value != "" || empty)
  }

  predicate EndsWithAppend(name: string) {
    |name| >= 2 && name[|name| - 2..] == "[]"
  }

  /** The key a multi-select's options are serialized under: in hash mode it
      is made to end in `[]` so that the values always form an array. */
  function SelectKey(name: string, hash: bool): string {
    if hash && !EndsWithAppend(name) then name + "[]" else name
  }

  /** One pair per chosen option, in option order */
  function OptionPairs(options: seq<SelectOption>, key: string, empty: bool): seq<Pair>
    decreases |options|
  {
    if options == [] then []
    else
      var init := OptionPairs(options[..|options| - 1], key, empty);
      var o := options[|options| - 1];
      if Chosen(o, empty) then init + [Pair(key, o.value)] else init
  }

  predicate AnyChosen(options: seq<SelectOption>, empty: bool) {
    exists i | 0 <= i < |options| :: Chosen(options[i], empty)
  }

  /** What a control that survived the filters contributes: a multi-select
      fans out into its chosen options (or, with `empty`, one empty pair when
      none is chosen); any other control gives one pair. */
  function Emit(c: Control, cfg: Config, value: string): (r: seq<Pair>)
    ensures c.controlType != "select-multiple" ==> r == [Pair(c.name, value)]
    // a multi-select gives at most one pair per option, or one placeholder
    ensures c.controlType == "select-multiple" ==> |r| <= |c.options| + 1
    // and with `empty` it always gives at least one pair
    ensures c.controlType == "select-multiple" && cfg.empty ==> r != []
  {
    OptionPairsMeaning(c.options, SelectKey(c.name, cfg.hash), cfg.empty);
    if c.controlType == "select-multiple" then
      OptionPairs(c.options, SelectKey(c.name, cfg.hash), cfg.empty)
      + (if !AnyChosen(c.options, cfg.empty) && cfg.empty then [Pair(c.name, "")] else [])
    else [Pair(c.name, value)]
  }

  /** The pairs one control hands to the serializer during the scan. Without
      `empty`, a control without a value (an empty string, or an unchecked
      checkbox or radio) gives nothing; with `empty`, only an unchecked radio
      gives nothing here (its name may get a placeholder at the end). */
  function ControlPairs(c: Control, cfg: Config): (r: seq<Pair>)
    // only a control that passes the filters contributes
    ensures r != [] ==> Eligible(c, cfg)
    // a control other than a multi-select gives at most one pair, under its name
    ensures c.controlType != "select-multiple" && r != [] ==> r == [Pair(c.name, r[0].value)]
  {
    if !Eligible(c, cfg) then []
    else
      var v := Prepared(c, cfg);
      if v.None? || (!cfg.empty && v.value == "") then []
      else Emit(c, cfg, v.value)
  }

  /** The pairs of all controls, in control order */
  function PerControl(controls: seq<Control>, cfg: Config): seq<Pair>
    decreases |controls|
  {
    if controls == [] then []
    else PerControl(controls[..|controls| - 1], cfg) + ControlPairs(controls[|controls| - 1], cfg)
  }

  /** The radio store: for each radio name seen with `empty`, whether any of
      its radios was checked, with the names in the order first seen */
  datatype RadioStore = RadioStore(checked: map<string, bool>, order: seq<string>)

  predicate Tracked(c: Control, cfg: Config) {
    Eligible(c, cfg) && cfg.empty && c.controlType == "radio"
  }

  /** How one control changes the radio store */
  function RadioStep(rs: RadioStore, c: Control, cfg: Config): (r: RadioStore)
    // only a radio counted under `empty` changes the store
    ensures !Tracked(c, cfg) ==> r == rs
    // its name is recorded, and marked checked once any of its radios is
    ensures r.checked.Keys == rs.checked.Keys + (if Tracked(c, cfg) then {c.name} else {})
    ensures Tracked(c, cfg) ==>
              (r.checked[c.name] <==> c.checked || (c.name in rs.checked && rs.checked[c.name]))
    // other names keep their marks, and names are only ever added to the order
    ensures forall n | n in rs.checked && n != c.name :: r.checked[n] == rs.checked[n]
    ensures rs.order <= r.order
  {
    if Tracked(c, cfg) then
      RadioStore(
        rs.checked[c.name := c.checked || (c.name in rs.checked && rs.checked[c.name])],
        if c.name in rs.checked then rs.order else rs.order + [c.name])
    else rs
  }

  function StoreAfter(controls: seq<Control>, cfg: Config): RadioStore
    decreases |controls|
  {
    if controls == [] then RadioStore(map[], [])
    else RadioStep(StoreAfter(controls[..|controls| - 1], cfg), controls[|controls| - 1], cfg)
  }

  /** The order lists exactly the names of the map, each once. */
  predicate ValidStore(rs: RadioStore) {
    && (forall i | 0 <= i < |rs.order| :: rs.order[i] in rs.checked)
    && (forall n | n in rs.checked :: n in rs.order)
    && (forall i, j | 0 <= i < j < |rs.order| :: rs.order[i] != rs.order[j])
  }

  /** The names never seen checked, in store order */
  function Pending(rs: RadioStore, upTo: nat): seq<string>
    requires upTo <= |rs.order|
    decreases upTo
  {
    if upTo == 0 then []
    else
      var n := rs.order[upTo - 1];
      Pending(rs, upTo - 1) + (if n in rs.checked && rs.checked[n] then [] else [n])
  }

  function Placeholders(names: seq<string>): (r: seq<Pair>)
    ensures |r| == |names|
    ensures forall i | 0 <= i < |names| :: r[i] == Pair(names[i], "")
  {
    seq(|names|, i requires 0 <= i < |names| => Pair(names[i], ""))
  }

  /** Every pair `serialize` hands to the serializer, in order: each
      control's pairs, then (with `empty`) one empty pair for each radio name
      none of whose radios was checked. */
  function Emissions(controls: seq<Control>, cfg: Config): seq<Pair> {
    var rs := StoreAfter(controls, cfg);
    PerControl(controls, cfg)
    + (if cfg.empty then Placeholders(Pending(rs, |rs.order|)) else [])
  }

  /** The forEach callback of `serialize` for one control: returns the new
      accumulator and the new radio store. */
  method VisitControl<A>(c: Control, cfg: Config, ser: (A, string, string) -> A, acc: A, rs: RadioStore)
    returns (result: A, rs': RadioStore)
    ensures result == Fold(ser, acc, ControlPairs(c, cfg))
    ensures rs' == RadioStep(rs, c, cfg)
  {
    result, rs' := acc, rs;
    if (!cfg.disabled && c.disabled) || c.name == "" {
      return;
    }
    if !SuccessNode(c.nodeName) || Submitter(c.controlType) {
      return;
    }
    var value: Option<string> := Some(c.value);
    if IsToggle(c) && !c.checked {
      value := None;
    }
    if cfg.empty {
      if c.controlType == "checkbox" && !c.checked {
        value := Some("");
      }
      if c.controlType == "radio" {
        var seen := c.name in rs'.checked;
        var order := if seen then rs'.order else rs'.order + [c.name];
        if !(seen && rs'.checked[c.name]) && !c.checked {
          rs' := RadioStore(rs'.checked[c.name := false], order);
        } else if c.checked {
          rs' := RadioStore(rs'.checked[c.name := true], order);
        }
        if value.None? {
          return;
        }
      }
    } else if value.None? || value.value == "" {
      return;
    }
    assert ControlPairs(c, cfg) == Emit(c, cfg, value.value);
    if c.controlType == "select-multiple" {
      result := VisitMultiSelect(c, cfg, ser, result);
      return;
    }
    result := ser(result, c.name, value.value);
    assert Fold(ser, acc, [Pair(c.name, value.value)]) == ser(Fold(ser, acc, []), c.name, value.value);
  }

  /** The multi-select branch of the callback: the option loop, then, with
      `empty` and no option chosen, the empty pair under the plain name. */
  method VisitMultiSelect<A>(c: Control, cfg: Config, ser: (A, string, string) -> A, acc: A) returns (result: A)
    requires c.controlType == "select-multiple"
    ensures result == Fold(ser, acc, Emit(c, cfg, c.value))
  {
    var isSelectedOptions;
    result, isSelectedOptions := VisitOptions(c.options, c.name, cfg, ser, acc);
    var tail: seq<Pair> := [];
    if !isSelectedOptions && cfg.empty {
      result := ser(result, c.name, "");
      tail := [Pair(c.name, "")];
    }
    FoldAppend(ser, acc, OptionPairs(c.options, SelectKey(c.name, cfg.hash), cfg.empty), tail);
  }

  /** The loop over a multi-select's options: serializes each chosen option
      and reports whether any was chosen. */
  method VisitOptions<A>(options: seq<SelectOption>, name: string, cfg: Config, ser: (A, string, string) -> A, acc: A)
    returns (result: A, isSelectedOptions: bool)
    ensures result == Fold(ser, acc, OptionPairs(options, SelectKey(name, cfg.hash), cfg.empty))
    ensures isSelectedOptions == AnyChosen(options, cfg.empty)
  {
    var key := SelectKey(name, cfg.hash);
    result, isSelectedOptions := acc, false;
    var i := 0;
    while i < |options|
      invariant 0 <= i <= |options|
      invariant result == Fold(ser, acc, OptionPairs(options[..i], key, cfg.empty))
      invariant isSelectedOptions == AnyChosen(options[..i], cfg.empty)
    {
      var option := options[i];
      var allowedEmpty := cfg.empty && option.value == "";
      var hasValue := option.value != "" || allowedEmpty;
      OptionStep(options, i, key, cfg.empty);
      if option.selected && hasValue {
        isSelectedOptions := true;
        if cfg.hash && !EndsWithAppend(name) {
          result := ser(result, name + "[]", option.value);
        } else {
          result := ser(result, name, option.value);
        }
        FoldSnoc(ser, acc, OptionPairs(options[..i], key, cfg.empty), Pair(key, option.value));
      } else {
        assert OptionPairs(options[..i + 1], key, cfg.empty) == OptionPairs(options[..i], key, cfg.empty);
      }
      i := i + 1;
    }
    assert options[..i] == options;
  }

  lemma OptionStep(options: seq<SelectOption>, i: nat, key: string, empty: bool)
    requires i < |options|
    ensures OptionPairs(options[..i + 1], key, empty)
         == OptionPairs(options[..i], key, empty) + (if Chosen(options[i], empty) then [Pair(key, options[i].value)] else [])
    ensures AnyChosen(options[..i + 1], empty) == (AnyChosen(options[..i], empty) || Chosen(options[i], empty))
  {
    var pre, pre1 := options[..i], options[..i + 1];
    assert pre1[..i] == pre;
    if AnyChosen(pre1, empty) && !Chosen(options[i], empty) {
      var k :| 0 <= k < i + 1 && Chosen(pre1[k], empty);
      assert pre[k] == pre1[k];
    }
    if AnyChosen(pre, empty) {
      var k :| 0 <= k < i && Chosen(pre[k], empty);
      assert pre1[k] == pre[k];
    }
    if Chosen(options[i], empty) {
      assert pre1[i] == options[i];
    }
  }

  /** `serialize(form, options)` with any serializer: the accumulator ends up
      as the serializer applied to the pairs of `Emissions`, one at a time. */
  method Serialize<A>(controls: seq<Control>, cfg: Config, ser: (A, string, string) -> A, init: A)
    returns (result: A)
    ensures result == Fold(ser, init, Emissions(controls, cfg))
  {
    result := init;
    var rs := RadioStore(map[], []);
    var i := 0;
    while i < |controls|
      invariant 0 <= i <= |controls|
      invariant result == Fold(ser, init, PerControl(controls[..i], cfg))
      invariant rs == StoreAfter(controls[..i], cfg)
    {
      ControlStep(controls, i, cfg);
      FoldAppend(ser, init, PerControl(controls[..i], cfg), ControlPairs(controls[i], cfg));
      result, rs := VisitControl(controls[i], cfg, ser, result, rs);
      i := i + 1;
    }
    assert controls[..i] == controls;
    if cfg.empty {
      result := VisitRadioStore(rs, ser, result);
      FoldAppend(ser, init, PerControl(controls, cfg), Placeholders(Pending(rs, |rs.order|)));
    } else {
      assert Emissions(controls, cfg) == PerControl(controls, cfg);
    }
  }

  /** One more control adds its pairs and its radio step. */
  lemma ControlStep(controls: seq<Control>, i: nat, cfg: Config)
    requires i < |controls|
    ensures PerControl(controls[..i + 1], cfg) == PerControl(controls[..i], cfg) + ControlPairs(controls[i], cfg)
    ensures StoreAfter(controls[..i + 1], cfg) == RadioStep(StoreAfter(controls[..i], cfg), controls[i], cfg)
  {
    assert controls[..i + 1][..i] == controls[..i];
  }

  /** The final pass over the radio store: an empty pair for each name that
      was never checked, in store order. */
  method VisitRadioStore<A>(rs: RadioStore, ser: (A, string, string) -> A, acc: A) returns (result: A)
    ensures result == Fold(ser, acc, Placeholders(Pending(rs, |rs.order|)))
  {
    result := acc;
    var j := 0;
    while j < |rs.order|
      invariant 0 <= j <= |rs.order|
      invariant result == Fold(ser, acc, Placeholders(Pending(rs, j)))
    {
      var name := rs.order[j];
      if !(name in rs.checked && rs.checked[name]) {
        result := ser(result, name, "");
        assert Placeholders(Pending(rs, j + 1)) == Placeholders(Pending(rs, j)) + [Pair(name, "")];
        FoldSnoc(ser, acc, Placeholders(Pending(rs, j)), Pair(name, ""));
      } else {
        assert Pending(rs, j + 1) == Pending(rs, j);
      }
      j := j + 1;
    }
  }

  /** The value `serialize` returns when no custom serializer is given */
  datatype Output = Text(s: string) | Hash(fields: map<string, Tree.Node>)

  /** `serialize(form, options)` with the built-in serializers: hash output
      builds a tree from `{}` (and throws when a key path runs into a string),
      string output joins the encoded pairs with `&`. */
  method SerializeForm(controls: seq<Control>, raw: RawOptions) returns (r: Result<Output>)
    ensures raw.NullOptions? ==> r == TypeError
    // no options (or a falsy non-object), or `hash: false`: a URL-encoded string
    ensures raw == NotAnObject(false) || (raw.Settings? && raw.hash == Some(false)) ==>
              r.Ok? && r.value.Text?
    // `true`, or an options object without `hash: false`: an object, unless a write throws
    ensures raw == NotAnObject(true) || (raw.Settings? && raw.hash != Some(false)) ==>
              r.TypeError? || r.value.Hash?
    ensures Normalize(raw).Ok? && !Normalize(raw).value.hash ==>
              r == Ok(Text(UrlEncoding.Joined(Emissions(controls, Normalize(raw).value))))
    ensures Normalize(raw).Ok? && Normalize(raw).value.hash ==>
              var h := Fold(HashSerializer.HashStep, Ok(map[]), Emissions(controls, Normalize(raw).value));
              r == if h.Ok? then Ok(Hash(h.value)) else TypeError
  {
    var normalized := Normalize(raw);
    if normalized.TypeError? {
      return TypeError;
    }
    var cfg := normalized.value;
    if cfg.hash {
      var h := Serialize(controls, cfg, HashSerializer.HashStep, Ok(map[]));
      r := if h.Ok? then Ok(Hash(h.value)) else TypeError;
    } else {
      var s := Serialize(controls, cfg, UrlEncoding.StrSerialize, "");
      UrlEncoding.StrFoldIsJoin(Emissions(controls, cfg));
      r := Ok(Text(s));
    }
  }

  // ---------------------------------------------------------------------
  // The radio store

  lemma {:induction false} StoreAfterValid(controls: seq<Control>, cfg: Config)
    ensures ValidStore(StoreAfter(controls, cfg))
    decreases |controls|
  {
    if controls != [] {
      StoreAfterValid(controls[..|controls| - 1], cfg);
    }
  }

  /** A name is in the store exactly when a radio of that name passed the
      filters with `empty`, and it is marked checked exactly when one of those
      radios was checked. */
  lemma {:induction false} StoreAfterMeaning(controls: seq<Control>, cfg: Config, n: string)
    ensures var rs := StoreAfter(controls, cfg);
            && (n in rs.checked <==> exists i | 0 <= i < |controls| :: Tracked(controls[i], cfg) && controls[i].name == n)
            && (n in rs.checked ==>
                  (rs.checked[n] <==> exists i | 0 <= i < |controls| ::
                     Tracked(controls[i], cfg) && controls[i].name == n && controls[i].checked))
    decreases |controls|
  {
    if controls != [] {
      var init := controls[..|controls| - 1];
      var last := controls[|controls| - 1];
      StoreAfterMeaning(init, cfg, n);
      forall i | 0 <= i < |init|
        ensures init[i] == controls[i]
      {
      }
    }
  }

  lemma {:induction false} PendingMeaning(rs: RadioStore, upTo: nat, n: string)
    requires ValidStore(rs) && upTo <= |rs.order|
    ensures n in Pending(rs, upTo) <==> exists i | 0 <= i < upTo :: rs.order[i] == n && !rs.checked[n]
    decreases upTo
  {
    if upTo > 0 {
      PendingMeaning(rs, upTo - 1, n);
    }
  }

  lemma {:induction false} PendingDistinct(rs: RadioStore, upTo: nat)
    requires ValidStore(rs) && upTo <= |rs.order|
    ensures forall i, j | 0 <= i < j < |Pending(rs, upTo)| :: Pending(rs, upTo)[i] != Pending(rs, upTo)[j]
    decreases upTo
  {
    if upTo > 0 {
      PendingDistinct(rs, upTo - 1);
      var n := rs.order[upTo - 1];
      if !rs.checked[n] {
        var p := Pending(rs, upTo - 1);
        if n in p {
          PendingMeaning(rs, upTo - 1, n);
          assert false;
        }
      }
    }
  }

  /** With `empty`, the final pass emits `(n, "")` exactly for the radio names
      none of whose radios was checked, and emits it once. */
  lemma PlaceholderIff(controls: seq<Control>, cfg: Config, n: string)
    requires cfg.empty
    ensures var rs := StoreAfter(controls, cfg);
            var names := Pending(rs, |rs.order|);
            && (Pair(n, "") in Placeholders(names) <==>
                  (exists i | 0 <= i < |controls| :: Tracked(controls[i], cfg) && controls[i].name == n)
                  && (forall i | 0 <= i < |controls| && Tracked(controls[i], cfg) && controls[i].name == n ::
                        !controls[i].checked))
            && (forall i, j | 0 <= i < j < |names| :: names[i] != names[j])
  {
    var rs := StoreAfter(controls, cfg);
    StoreAfterValid(controls, cfg);
    var names := Pending(rs, |rs.order|);
    StoreAfterMeaning(controls, cfg, n);
    PendingMeaning(rs, |rs.order|, n);
    PendingDistinct(rs, |rs.order|);
    if Pair(n, "") in Placeholders(names) {
      var k :| 0 <= k < |names| && Placeholders(names)[k] == Pair(n, "");
      assert names[k] == n;
    }
    if n in names {
      var k :| 0 <= k < |names| && names[k] == n;
      assert Placeholders(names)[k] == Pair(n, "");
    }
  }

  // ---------------------------------------------------------------------
  // What each control contributes

  /** Order is kept across batches of controls. */
  lemma {:induction false} PerControlAppend(a: seq<Control>, b: seq<Control>, cfg: Config)
    ensures PerControl(a + b, cfg) == PerControl(a, cfg) + PerControl(b, cfg)
    decreases |b|
  {
    if b == [] {
      assert a + b == a;
    } else {
      var b' := b[..|b| - 1];
      var last := b[|b| - 1];
      assert (a + b)[..|a + b| - 1] == a + b';
      assert (a + b)[|a + b| - 1] == last;
      PerControlAppend(a, b', cfg);
      calc {
        PerControl(a + b, cfg);
        PerControl(a + b', cfg) + ControlPairs(last, cfg);
        (PerControl(a, cfg) + PerControl(b', cfg)) + ControlPairs(last, cfg);
        PerControl(a, cfg) + (PerControl(b', cfg) + ControlPairs(last, cfg));
        { assert PerControl(b, cfg) == PerControl(b', cfg) + ControlPairs(last, cfg); }
        PerControl(a, cfg) + PerControl(b, cfg);
      }
    }
  }

  /** A control without a name, a disabled control (unless `disabled` is
      set), a node that is not a form field, and a submit, button, image,
      reset or file control contribute nothing and leave the radio store
      alone. */
  lemma SkippedControls(c: Control, cfg: Config, rs: RadioStore)
    requires c.name == "" || (c.disabled && !cfg.disabled) || !SuccessNode(c.nodeName) || Submitter(c.controlType)
    ensures ControlPairs(c, cfg) == []
    ensures RadioStep(rs, c, cfg) == rs
  {
  }

  /** A field that is neither a checkbox, a radio nor a multi-select
      contributes `(name, value)` when its value is non-empty, and otherwise
      `(name, "")` with `empty` and nothing without. */
  lemma PlainField(c: Control, cfg: Config)
    requires Eligible(c, cfg) && !IsToggle(c) && c.controlType != "select-multiple"
    ensures ControlPairs(c, cfg) ==
              if c.value != "" || cfg.empty then [Pair(c.name, c.value)] else []
  {
  }

  /** Without `empty`, no pair with an empty value is ever emitted. */
  lemma {:induction false} NoEmptyValuesWithoutEmpty(controls: seq<Control>, cfg: Config)
    requires !cfg.empty
    ensures forall i | 0 <= i < |Emissions(controls, cfg)| :: Emissions(controls, cfg)[i].value != ""
    decreases |controls|
  {
    if controls != [] {
      var init := controls[..|controls| - 1];
      NoEmptyValuesWithoutEmpty(init, cfg);
      var c := controls[|controls| - 1];
      var mine := ControlPairs(c, cfg);
      if Eligible(c, cfg) && c.controlType == "select-multiple" {
        OptionPairsMeaning(c.options, SelectKey(c.name, cfg.hash), cfg.empty);
      }
      assert forall i | 0 <= i < |mine| :: mine[i].value != "" by {
        forall i | 0 <= i < |mine|
          ensures mine[i].value != ""
        {
          assert mine[i] in mine;
        }
      }
      assert Emissions(controls, cfg) == Emissions(init, cfg) + mine;
    }
  }

  /** Without `empty`, an unchecked checkbox or radio contributes nothing. */
  lemma UncheckedToggleWithoutEmpty(c: Control, cfg: Config)
    requires IsToggle(c) && !c.checked && !cfg.empty
    ensures ControlPairs(c, cfg) == []
  {
  }

  /** With `empty`, an unchecked checkbox contributes `(name, "")`. */
  lemma UncheckedCheckboxWithEmpty(c: Control, cfg: Config)
    requires Eligible(c, cfg) && c.controlType == "checkbox" && !c.checked && cfg.empty
    ensures ControlPairs(c, cfg) == [Pair(c.name, "")]
  {
  }

  /** A checked checkbox or radio contributes its value (when non-empty, or
      with `empty`). */
  lemma CheckedToggle(c: Control, cfg: Config)
    requires Eligible(c, cfg) && IsToggle(c) && c.checked
    ensures ControlPairs(c, cfg) == if c.value != "" || cfg.empty then [Pair(c.name, c.value)] else []
  {
  }

  /** The pairs of a multi-select's options: each pair has the select's key,
      and a value appears exactly when some option with that value is chosen;
      the pairs follow the options' order. */
  lemma {:induction false} OptionPairsMeaning(options: seq<SelectOption>, key: string, empty: bool)
    ensures forall p | p in OptionPairs(options, key, empty) ::
              p.key == key && (p.value != "" || empty)
    ensures forall v ::
              Pair(key, v) in OptionPairs(options, key, empty) <==>
              exists i | 0 <= i < |options| :: options[i].value == v && Chosen(options[i], empty)
    ensures |OptionPairs(options, key, empty)| <= |options|
    ensures OptionPairs(options, key, empty) == [] <==> !AnyChosen(options, empty)
    decreases |options|
  {
    if options != [] {
      var init := options[..|options| - 1];
      OptionPairsMeaning(init, key, empty);
      forall i | 0 <= i < |init|
        ensures init[i] == options[i]
      {
      }
    }
  }

  /** The option pairs of consecutive runs of options are those of each run,
      in order. */
  lemma {:induction false} OptionPairsSplit(a: seq<SelectOption>, b: seq<SelectOption>, key: string, empty: bool)
    ensures OptionPairs(a + b, key, empty) == OptionPairs(a, key, empty) + OptionPairs(b, key, empty)
    decreases |b|
  {
    if b == [] {
      assert a + b == a;
    } else {
      var b' := b[..|b| - 1];
      assert (a + b)[..|a + b| - 1] == a + b';
      assert (a + b)[|a + b| - 1] == b[|b| - 1];
      OptionPairsSplit(a, b', key, empty);
    }
  }

  /** One option gives its pair exactly when it is chosen. */
  lemma OptionPairsOfOne(o: SelectOption, key: string, empty: bool)
    ensures OptionPairs([o], key, empty) == if Chosen(o, empty) then [Pair(key, o.value)] else []
  {
    assert [o][..0] == [];
  }

  /** A multi-select that passes the filters is dropped as a whole, without
      `empty`, when its own value (that of its first selected option) is
      empty, whatever its later options hold. Otherwise it fans out into one
      pair per chosen option under its select key; with `empty` and no chosen
      option it gives a single `(name, "")`. */
  lemma MultiSelectFanOut(c: Control, cfg: Config)
    requires Eligible(c, cfg) && c.controlType == "select-multiple"
    ensures var key := SelectKey(c.name, cfg.hash);
            ControlPairs(c, cfg) ==
              if !cfg.empty && c.value == "" then []
              else if AnyChosen(c.options, cfg.empty) then OptionPairs(c.options, key, cfg.empty)
              else if cfg.empty then [Pair(c.name, "")]
              else []
  {
    OptionPairsMeaning(c.options, SelectKey(c.name, cfg.hash), cfg.empty);
  }

  /** In hash mode the select key always ends in `[]`, without doubling a
      `[]` already there; in string mode it is the name itself. */
  lemma SelectKeyShape(name: string, hash: bool)
    ensures !hash ==> SelectKey(name, hash) == name
    ensures hash ==> EndsWithAppend(SelectKey(name, hash))
    ensures hash && EndsWithAppend(name) ==> SelectKey(name, hash) == name
    ensures hash && !EndsWithAppend(name) ==> SelectKey(name, hash) == name + "[]"
  {
    if hash && !EndsWithAppend(name) {
      var k := name + "[]";
      assert k[|k| - 2..] == "[]";
    }
  }

  /** A node name is matched by prefix and ignoring case, a type by whole
      word and ignoring case. */
  lemma FilterPatterns()
    ensures SuccessNode("INPUT") && SuccessNode("textarea") && SuccessNode("SELECT")
    ensures !SuccessNode("button") && !SuccessNode("fieldset")
    ensures Submitter("Submit") && Submitter("reset") && !Submitter("submit2") && !Submitter("text")
  {
    NodeNamesAccepted();
    NodeNamesRefused();
    TypesMatched();
  }

  lemma NodeNamesAccepted()
    ensures SuccessNode("INPUT") && SuccessNode("textarea") && SuccessNode("SELECT")
  {
    assert StartsWithIgnoringCase("INPUT", "input");
    assert StartsWithIgnoringCase("textarea", "textarea");
    assert StartsWithIgnoringCase("SELECT", "select");
  }

  lemma NodeNamesRefused()
    ensures !SuccessNode("button") && !SuccessNode("fieldset")
  {
    assert Lower("button"[0]) == 'b';
    assert Lower("fieldset"[0]) == 'f';
  }

  lemma TypesMatched()
    ensures Submitter("Submit") && Submitter("reset") && !Submitter("submit2") && !Submitter("text")
  {
    assert EqualsIgnoringCase("Submit", "submit");
    assert EqualsIgnoringCase("reset", "reset");
    assert Lower("text"[0]) == 't';
  }
}
