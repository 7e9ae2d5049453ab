/** The tree assigner (`hashAssign`): places one value into the nested result
    of a hash serialization, consuming one key segment per step. */
module Tree {
  import opened Base
  import opened Numbers
  import KeyPath

  /** A node of the result: a string, a plain object, or an array. A
      JavaScript array may be sparse (`None` slots) and, like every object,
      may carry named properties besides its slots. */
  datatype Node =
    | Str(s: string)
    | Obj(fields: map<string, Node>)
    | Arr(slots: seq<Option<Node>>, props: map<string, Node>)

  /** The segment that means "append" */
  const AppendMarker: string := "[]"

  /** The reserved field of a mapping that collects appended values */
  const ValuesKey: string := "_values"

  /** The method `[]` calls; an array whose own property of that name was
      set by an earlier write holds a string or an object there, which is not
      callable */
  const PushMethod: string := "push"

  /** `undefined`, `null` and the empty string are falsy; objects, arrays
      and non-empty strings are truthy. */
  predicate Falsy(cur: Option<Node>) {
    cur == None || cur == Some(Str(""))
  }

  function Field(m: map<string, Node>, k: string): Option<Node> {
    if k in m then Some(m[k]) else None
  }

  /** Reading index `n` of an array: holes and indices past the end are undefined */
  function SlotAt(slots: seq<Option<Node>>, n: nat): Option<Node> {
    if n < |slots| then slots[n] else None
  }

  /** Writing index `n` of a sparse array: an index past the end grows the
      array to `n + 1` slots, leaving holes */
  function SetSlot(slots: seq<Option<Node>>, n: nat, x: Node): (r: seq<Option<Node>>)
    ensures |r| == if n < |slots| then |slots| else n + 1
    ensures forall k | 0 <= k < |r| :: r[k] == if k == n then Some(x) else SlotAt(slots, k)
  {
    if n < |slots| then slots[n := Some(x)]
    else slots + seq(n - |slots|, _ => None) + [Some(x)]
  }

  predicate IsLineTerminator(c: char) {
    c == '\n' || c == '\r' || c == '\U{2028}' || c == '\U{2029}'
  }

  /** The content of a segment matched by `^\[(.+?)]$`: at least one
      character between the outer brackets, none of them a line terminator
      (the pattern's `.` does not match those). */
  function Between(key: string): (r: Option<string>)
    ensures r.Some? ==> r.value != "" && key == KeyPath.Bracket(r.value)
  {
    if |key| >= 3 && key[0] == '[' && key[|key| - 1] == ']'
       && forall i | 1 <= i < |key| - 1 :: !IsLineTerminator(key[i])
    then Some(key[1..|key| - 1])
    else None
  }

  /** `hashAssign(result, keys, value)`: the node that results from placing
      `value` at the path `keys` below `cur`. With no segment left the value
      replaces the node. `[]` appends (to `_values` when the node is a
      mapping); a bare segment or a bracket content that is not a digit
      string names a field; a digit string indexes an array. Writing a
      property of a string, of `undefined` or of `null` throws. */
  function Assign(cur: Option<Node>, keys: seq<string>, value: string): (r: Result<Node>)
    ensures keys != [] && cur.Some? && cur.value.Obj? && r.Ok? ==>
              r.value.Obj? && cur.value.fields.Keys <= r.value.fields.Keys
    decreases |keys|
  {
    if keys == [] then Ok(Str(value))
    else
      var key, rest := keys[0], keys[1..];
      if key == AppendMarker then
        var e :- Assign(None, rest, value);
        Append(cur, e)
      else
        var between := Between(key);
        if between.None? then
          match cur
          case Some(Obj(fields)) =>
            var c :- Assign(Field(fields, key), rest, value);
            Ok(Obj(fields[key := c]))
          case Some(Arr(slots, props)) =>
            var c :- Assign(Field(props, key), rest, value);
            Ok(Arr(slots, props[key := c]))
          case _ => TypeError
        else if IsIndex(between.value) then
          var n := DecimalValue(between.value);
          if Falsy(cur) then
            var c :- Assign(None, rest, value);
            Ok(Arr(SetSlot([], n, c), map[]))
          else
            match cur.value
            case Arr(slots, props) =>
              var c :- Assign(SlotAt(slots, n), rest, value);
              Ok(Arr(SetSlot(slots, n, c), props))
            case Obj(fields) =>
              var k := NatToString(n);
              var c :- Assign(Field(fields, k), rest, value);
              Ok(Obj(fields[k := c]))
            case Str(_) => TypeError
        else
          var name := between.value;
          if Falsy(cur) then
            var c :- Assign(None, rest, value);
            Ok(Obj(map[name := c]))
          else
            match cur.value
            case Obj(fields) =>
              var c :- Assign(Field(fields, name), rest, value);
              Ok(Obj(fields[name := c]))
            case Arr(slots, props) =>
              var c :- Assign(Field(props, name), rest, value);
              Ok(Arr(slots, props[name := c]))
            case Str(_) => TypeError
  }

  /** The `[]` step: push onto an absent node or an array; on a mapping push
      onto its `_values` array, creating it when absent. Calling `push` on an
      array that has an own `push` property throws. */
  function Append(cur: Option<Node>, e: Node): (r: Result<Node>)
    ensures cur.Some? && cur.value.Obj? && r.Ok? ==>
              r.value.Obj? && cur.value.fields.Keys <= r.value.fields.Keys
  {
    if Falsy(cur) then Ok(Arr([Some(e)], map[]))
    else
      match cur.value
      case Arr(slots, props) =>
        if PushMethod in props then TypeError else Ok(Arr(slots + [Some(e)], props))
      case Obj(fields) =>
        var bucket := Field(fields, ValuesKey);
        if Falsy(bucket) then Ok(Obj(fields[ValuesKey := Arr([Some(e)], map[])]))
        else if bucket.value.Arr? && PushMethod !in bucket.value.props then
          Ok(Obj(fields[ValuesKey := Arr(bucket.value.slots + [Some(e)], bucket.value.props)]))
        else TypeError
      case Str(_) => TypeError
  }

  /** A node that `[]` or an index treats as an array: absent, empty, or an array */
  predicate ArrayLike(cur: Option<Node>) {
    Falsy(cur) || cur.value.Arr?
  }

  /** A node that `[]` can push onto: array-like, without an own `push` */
  predicate Pushable(cur: Option<Node>) {
    ArrayLike(cur) && PushMethod !in PropsOf(cur)
  }

  function SlotsOf(cur: Option<Node>): seq<Option<Node>>
    requires ArrayLike(cur)
  {
    if Falsy(cur) then [] else cur.value.slots
  }

  function PropsOf(cur: Option<Node>): map<string, Node>
    requires ArrayLike(cur)
  {
    if Falsy(cur) then map[] else cur.value.props
  }

  /** The field of a mapping that a segment other than `[]` writes: the bare
      segment itself, a bracket content that is not a digit string, or the
      canonical spelling of the number a digit string denotes */
  function TargetField(seg: string): (r: string)
    // a segment the pattern does not match is its own field name
    ensures Between(seg).None? ==> r == seg
    // a content that is not a digit string names the field itself
    ensures Between(seg).Some? && !IsIndex(Between(seg).value) ==> r == Between(seg).value
    // a digit string names the field spelled canonically for the same number
    ensures Between(seg).Some? && IsIndex(Between(seg).value) ==>
              && IsIndex(r) && (|r| > 1 ==> r[0] != '0')
              && DecimalValue(r) == DecimalValue(Between(seg).value)
  {
    match Between(seg)
    case None => seg
    case Some(c) =>
      if IsIndex(c) then
        DecimalValueOfNatToString(DecimalValue(c));
        NatToString(DecimalValue(c))
      else c
  }

  predicate NoLineTerminators(s: string) {
    forall i | 0 <= i < |s| :: !IsLineTerminator(s[i])
  }

  lemma BetweenOfBracket(c: string)
    requires c != "" && NoLineTerminators(c)
    ensures Between(KeyPath.Bracket(c)) == Some(c)
  {
    var key := KeyPath.Bracket(c);
    assert key[1..|key| - 1] == c;
    forall i | 1 <= i < |key| - 1
      ensures !IsLineTerminator(key[i])
    {
      assert key[i] == c[i - 1];
    }
  }

  /** `[]` on an absent node or an array appends exactly one element, built
      from the remaining segments, after the existing ones, and keeps the
      named properties; it throws when that element cannot be built or the
      array has an own `push`. */
  lemma AppendOntoArray(cur: Option<Node>, rest: seq<string>, value: string)
    requires ArrayLike(cur)
    ensures var r := Assign(cur, [AppendMarker] + rest, value);
            var e := Assign(None, rest, value);
            (r.Ok? <==> e.Ok? && Pushable(cur)) &&
            (r.Ok? ==> r.value == Arr(SlotsOf(cur) + [Some(e.value)], PropsOf(cur)))
  {
    assert ([AppendMarker] + rest)[1..] == rest;
  }

  /** `[]` on a mapping appends to its `_values` array and leaves every other
      field as it was; a `_values` field that is a non-empty string, a
      mapping or an array with an own `push` has no callable `push`, and the
      write throws. */
  lemma AppendIntoMapping(fields: map<string, Node>, rest: seq<string>, value: string)
    ensures var r := Assign(Some(Obj(fields)), [AppendMarker] + rest, value);
            var e := Assign(None, rest, value);
            var bucket := Field(fields, ValuesKey);
            (r.Ok? <==> e.Ok? && Pushable(bucket)) &&
            (r.Ok? ==> r.value == Obj(fields[ValuesKey := Arr(SlotsOf(bucket) + [Some(e.value)], PropsOf(bucket))]))
  {
    assert ([AppendMarker] + rest)[1..] == rest;
    var bucket := Field(fields, ValuesKey);
    if Falsy(bucket) && Assign(None, rest, value).Ok? {
      assert SlotsOf(bucket) + [Some(Assign(None, rest, value).value)] == [Some(Assign(None, rest, value).value)];
    }
  }

  /** Assigning `values` one after another under the same segments */
  function AssignEach(cur: Option<Node>, keys: seq<string>, values: seq<string>): Result<Option<Node>>
    decreases |values|
  {
    if values == [] then Ok(cur)
    else
      var prev :- AssignEach(cur, keys, values[..|values| - 1]);
      var n :- Assign(prev, keys, values[|values| - 1]);
      Ok(Some(n))
  }

  /** Repeated `[]` assignments keep encounter order: the array ends with one
      element per value, in the order the values were assigned, after the
      elements it already had. */
  lemma {:induction false} RepeatedAppendKeepsOrder(cur: Option<Node>, rest: seq<string>, values: seq<string>)
    requires ArrayLike(cur)
    requires forall i | 0 <= i < |values| :: Assign(None, rest, values[i]).Ok?
    requires values != []
    ensures PushMethod in PropsOf(cur) ==> AssignEach(cur, [AppendMarker] + rest, values).TypeError?
    ensures PushMethod !in PropsOf(cur) ==>
            var r := AssignEach(cur, [AppendMarker] + rest, values);
            && r.Ok? && r.value.Some? && r.value.value.Arr?
            && r.value.value.props == PropsOf(cur)
            && |r.value.value.slots| == |SlotsOf(cur)| + |values|
            && r.value.value.slots[..|SlotsOf(cur)|] == SlotsOf(cur)
            && forall i | 0 <= i < |values| ::
                 r.value.value.slots[|SlotsOf(cur)| + i] == Some(Assign(None, rest, values[i]).value)
    decreases |values|
  {
    var keys := [AppendMarker] + rest;
    var init := values[..|values| - 1];
    var last := values[|values| - 1];
    if PushMethod in PropsOf(cur) {
      if init == [] {
        assert AssignEach(cur, keys, init) == Ok(cur);
        AppendOntoArray(cur, rest, last);
      } else {
        RepeatedAppendKeepsOrder(cur, rest, init);
      }
    } else if init == [] {
      assert AssignEach(cur, keys, init) == Ok(cur);
      AppendOntoArray(cur, rest, last);
    } else {
      RepeatedAppendKeepsOrder(cur, rest, init);
      var prev := AssignEach(cur, keys, init).value;
      AppendOntoArray(prev, rest, last);
      var old_ := prev.value.slots;
      var r := AssignEach(cur, keys, values).value.value;
      assert r.slots == old_ + [Some(Assign(None, rest, last).value)];
      forall i | 0 <= i < |values|
        ensures r.slots[|SlotsOf(cur)| + i] == Some(Assign(None, rest, values[i]).value)
      {
        if i < |init| {
          assert values[i] == init[i];
        }
      }
      assert r.slots[..|SlotsOf(cur)|] == old_[..|SlotsOf(cur)|];
    }
  }

  /** A digit-string segment writes that index of the array below it,
      creating the array when absent: the array grows to just past the index
      when the index is beyond its end, and every other slot and property is
      left as it was. */
  lemma IndexWrite(cur: Option<Node>, digits: string, rest: seq<string>, value: string)
    requires ArrayLike(cur)
    requires IsIndex(digits)
    ensures var n := DecimalValue(digits);
            var old_ := SlotsOf(cur);
            var r := Assign(cur, [KeyPath.Bracket(digits)] + rest, value);
            var c := Assign(SlotAt(old_, n), rest, value);
            (r.Ok? <==> c.Ok?) &&
            (r.Ok? ==>
              && r.value.Arr?
              && r.value.props == PropsOf(cur)
              && |r.value.slots| == (if n < |old_| then |old_| else n + 1)
              && r.value.slots[n] == Some(c.value)
              && forall k | 0 <= k < |r.value.slots| && k != n :: r.value.slots[k] == SlotAt(old_, k))
  {
    BetweenOfBracket(digits);
    assert ([KeyPath.Bracket(digits)] + rest)[1..] == rest;
  }

  /** After an index write, a `[]` on the same array appends just past the end
      of the grown array, that is one past the highest index written so far
      when that index lies beyond the old end. */
  lemma AppendAfterIndex(cur: Option<Node>, digits: string, p: seq<string>, v: string, q: seq<string>, w: string)
    requires ArrayLike(cur) && IsIndex(digits)
    requires Assign(SlotAt(SlotsOf(cur), DecimalValue(digits)), p, v).Ok?
    requires Assign(None, q, w).Ok?
    ensures var r := Then(Assign(cur, [KeyPath.Bracket(digits)] + p, v), [AppendMarker] + q, w);
            r.Ok? <==> PushMethod !in PropsOf(cur)
    ensures PushMethod !in PropsOf(cur) ==>
            var n := DecimalValue(digits);
            var len := if n < |SlotsOf(cur)| then |SlotsOf(cur)| else n + 1;
            var r := Then(Assign(cur, [KeyPath.Bracket(digits)] + p, v), [AppendMarker] + q, w);
            && r.Ok? && r.value.Arr?
            && |r.value.slots| == len + 1
            && r.value.slots[len] == Some(Assign(None, q, w).value)
            && r.value.slots[..len] == Assign(cur, [KeyPath.Bracket(digits)] + p, v).value.slots
  {
    IndexWrite(cur, digits, p, v);
    var first := Assign(cur, [KeyPath.Bracket(digits)] + p, v).value;
    AppendOntoArray(Some(first), q, w);
  }

  /** A segment other than `[]` on a mapping writes the one field it names and
      leaves every other field as it was; with no segment after it, the value
      replaces whatever the field held. */
  lemma WriteIntoMapping(fields: map<string, Node>, seg: string, rest: seq<string>, value: string)
    requires seg != AppendMarker
    ensures var k := TargetField(seg);
            var r := Assign(Some(Obj(fields)), [seg] + rest, value);
            var c := Assign(Field(fields, k), rest, value);
            (r.Ok? <==> c.Ok?) &&
            (r.Ok? ==> r.value == Obj(fields[k := c.value])) &&
            (rest == [] ==> r == Ok(Obj(fields[k := Str(value)])))
  {
    assert ([seg] + rest)[1..] == rest;
  }

  /** A named bracket segment on an array sets a named property of the array;
      its slots are left as they were. */
  lemma NamedWriteOnArray(slots: seq<Option<Node>>, props: map<string, Node>, name: string, rest: seq<string>, value: string)
    requires name != "" && NoLineTerminators(name) && !IsIndex(name)
    ensures var r := Assign(Some(Arr(slots, props)), [KeyPath.Bracket(name)] + rest, value);
            var c := Assign(Field(props, name), rest, value);
            (r.Ok? <==> c.Ok?) &&
            (r.Ok? ==> r.value == Arr(slots, props[name := c.value]))
  {
    BetweenOfBracket(name);
    assert ([KeyPath.Bracket(name)] + rest)[1..] == rest;
  }

  /** A non-empty string cannot take any further segment: in strict mode every
      write of a property of a primitive string throws. */
  lemma StringRejectsSegments(s: string, keys: seq<string>, value: string)
    requires s != "" && keys != []
    ensures Assign(Some(Str(s)), keys, value) == TypeError
  {
  }

  /** Bracket groups (other than ones holding a line terminator) below an
      absent node always build a fresh subtree without throwing. */
  lemma {:induction false} AbsentPathBuilds(keys: seq<string>, value: string)
    requires forall i | 0 <= i < |keys| :: KeyPath.IsGroup(keys[i]) && NoLineTerminators(keys[i])
    ensures Assign(None, keys, value).Ok?
    decreases |keys|
  {
    if keys != [] {
      var key := keys[0];
      AbsentPathBuilds(keys[1..], value);
      if key != AppendMarker {
        assert key == KeyPath.Bracket(key[1..|key| - 1]);
        BetweenOfBracket(key[1..|key| - 1]);
      }
    }
  }

  lemma SetSlotsCommute(slots: seq<Option<Node>>, a: nat, x: Node, b: nat, y: Node)
    requires a != b
    ensures SetSlot(SetSlot(slots, a, x), b, y) == SetSlot(SetSlot(slots, b, y), a, x)
  {
    var l := SetSlot(SetSlot(slots, a, x), b, y);
    var r := SetSlot(SetSlot(slots, b, y), a, x);
    assert |l| == |r|;
    forall k | 0 <= k < |l|
      ensures l[k] == r[k]
    {
    }
  }

  /** Apply further segments to a successful result */
  function Then(r: Result<Node>, keys: seq<string>, value: string): Result<Node> {
    match r
    case Ok(n) => Assign(Some(n), keys, value)
    case TypeError => TypeError
  }

  /** Index assignments at different indices give the same result in either
      order, whatever node they start from. */
  lemma IndexWritesCommute(cur: Option<Node>, a: string, p: seq<string>, v: string, b: string, q: seq<string>, w: string)
    requires IsIndex(a) && IsIndex(b)
    requires DecimalValue(a) != DecimalValue(b)
    ensures Then(Assign(cur, [KeyPath.Bracket(a)] + p, v), [KeyPath.Bracket(b)] + q, w)
         == Then(Assign(cur, [KeyPath.Bracket(b)] + q, w), [KeyPath.Bracket(a)] + p, v)
  {
    if ArrayLike(cur) {
      IndexWritesCommuteOnArray(cur, a, p, v, b, q, w);
    } else if cur.value.Obj? {
      IndexWritesCommuteOnMapping(cur.value.fields, a, p, v, b, q, w);
    }
  }

  lemma IndexWritesCommuteOnArray(cur: Option<Node>, a: string, p: seq<string>, v: string, b: string, q: seq<string>, w: string)
    requires ArrayLike(cur)
    requires IsIndex(a) && IsIndex(b)
    requires DecimalValue(a) != DecimalValue(b)
    ensures Then(Assign(cur, [KeyPath.Bracket(a)] + p, v), [KeyPath.Bracket(b)] + q, w)
         == Then(Assign(cur, [KeyPath.Bracket(b)] + q, w), [KeyPath.Bracket(a)] + p, v)
  {
    var na, nb := DecimalValue(a), DecimalValue(b);
    var ka, kb := KeyPath.Bracket(a), KeyPath.Bracket(b);
    var s := SlotsOf(cur);
    var ca := Assign(SlotAt(s, na), p, v);
    var cb := Assign(SlotAt(s, nb), q, w);
    TwoIndexWrites(cur, a, p, v, b, q, w);
    TwoIndexWrites(cur, b, q, w, a, p, v);
    if ca.Ok? && cb.Ok? {
      var l := Then(Assign(cur, [ka] + p, v), [kb] + q, w).value;
      var r := Then(Assign(cur, [kb] + q, w), [ka] + p, v).value;
      assert SetSlot(SetSlot(s, na, ca.value), nb, cb.value) == SetSlot(SetSlot(s, nb, cb.value), na, ca.value) by {
        SetSlotsCommute(s, na, ca.value, nb, cb.value);
      }
      assert l.slots == r.slots;
      assert l == r;
    }
  }

  /** Two index writes in a row on an absent node or an array: the second
      one reads its slot from the original array, since the first one wrote
      elsewhere. */
  lemma TwoIndexWrites(cur: Option<Node>, a: string, p: seq<string>, v: string, b: string, q: seq<string>, w: string)
    requires ArrayLike(cur)
    requires IsIndex(a) && IsIndex(b)
    requires DecimalValue(a) != DecimalValue(b)
    ensures var na, nb := DecimalValue(a), DecimalValue(b);
            var s := SlotsOf(cur);
            var ca := Assign(SlotAt(s, na), p, v);
            var cb := Assign(SlotAt(s, nb), q, w);
            var r := Then(Assign(cur, [KeyPath.Bracket(a)] + p, v), [KeyPath.Bracket(b)] + q, w);
            (r.Ok? <==> ca.Ok? && cb.Ok?) &&
            (r.Ok? ==> r.value == Arr(SetSlot(SetSlot(s, na, ca.value), nb, cb.value), PropsOf(cur)))
  {
    var na, nb := DecimalValue(a), DecimalValue(b);
    var s := SlotsOf(cur);
    var ca := Assign(SlotAt(s, na), p, v);
    IndexWrite(cur, a, p, v);
    if ca.Ok? {
      var first := Assign(cur, [KeyPath.Bracket(a)] + p, v).value;
      SetSlotIs(cur, a, p, v);
      assert first == Arr(SetSlot(s, na, ca.value), PropsOf(cur));
      IndexWrite(Some(first), b, q, w);
      assert SlotAt(first.slots, nb) == SlotAt(s, nb);
      if Assign(SlotAt(s, nb), q, w).Ok? {
        SetSlotIs(Some(first), b, q, w);
      }
    }
  }

  /** The index write, stated with `SetSlot` */
  lemma SetSlotIs(cur: Option<Node>, digits: string, rest: seq<string>, value: string)
    requires ArrayLike(cur) && IsIndex(digits)
    requires Assign(SlotAt(SlotsOf(cur), DecimalValue(digits)), rest, value).Ok?
    ensures Assign(cur, [KeyPath.Bracket(digits)] + rest, value)
         == Ok(Arr(SetSlot(SlotsOf(cur), DecimalValue(digits), Assign(SlotAt(SlotsOf(cur), DecimalValue(digits)), rest, value).value), PropsOf(cur)))
  {
    BetweenOfBracket(digits);
    assert ([KeyPath.Bracket(digits)] + rest)[1..] == rest;
  }

  lemma IndexWritesCommuteOnMapping(fields: map<string, Node>, a: string, p: seq<string>, v: string, b: string, q: seq<string>, w: string)
    requires IsIndex(a) && IsIndex(b)
    requires DecimalValue(a) != DecimalValue(b)
    ensures Then(Assign(Some(Obj(fields)), [KeyPath.Bracket(a)] + p, v), [KeyPath.Bracket(b)] + q, w)
         == Then(Assign(Some(Obj(fields)), [KeyPath.Bracket(b)] + q, w), [KeyPath.Bracket(a)] + p, v)
  {
    var fa, fb := NatToString(DecimalValue(a)), NatToString(DecimalValue(b));
    NatToStringInjective(DecimalValue(a), DecimalValue(b));
    TwoFieldWrites(fields, a, p, v, b, q, w);
    TwoFieldWrites(fields, b, q, w, a, p, v);
    var ca := Assign(Field(fields, fa), p, v);
    var cb := Assign(Field(fields, fb), q, w);
    if ca.Ok? && cb.Ok? {
      assert fields[fa := ca.value][fb := cb.value] == fields[fb := cb.value][fa := ca.value];
    }
  }

  /** Two index writes on an object, one after the other, write the fields
      named by the canonical spellings of the two indices. */
  lemma TwoFieldWrites(fields: map<string, Node>, a: string, p: seq<string>, v: string, b: string, q: seq<string>, w: string)
    requires IsIndex(a) && IsIndex(b)
    requires NatToString(DecimalValue(a)) != NatToString(DecimalValue(b))
    ensures var fa, fb := NatToString(DecimalValue(a)), NatToString(DecimalValue(b));
            var ca := Assign(Field(fields, fa), p, v);
            var cb := Assign(Field(fields, fb), q, w);
            Then(Assign(Some(Obj(fields)), [KeyPath.Bracket(a)] + p, v), [KeyPath.Bracket(b)] + q, w)
              == if ca.Ok? && cb.Ok? then Ok(Obj(fields[fa := ca.value][fb := cb.value])) else TypeError
  {
    var ka, kb := KeyPath.Bracket(a), KeyPath.Bracket(b);
    var fa, fb := NatToString(DecimalValue(a)), NatToString(DecimalValue(b));
    BetweenOfBracket(a);
    BetweenOfBracket(b);
    assert TargetField(ka) == fa && TargetField(kb) == fb;
    WriteIntoMapping(fields, ka, p, v);
    var ca := Assign(Field(fields, fa), p, v);
    if ca.Ok? {
      WriteIntoMapping(fields[fa := ca.value], kb, q, w);
      assert Field(fields[fa := ca.value], fb) == Field(fields, fb);
    }
  }
}
