/** The hash serializer (`hashSerializer`): adds one `(key, value)` pair to the
    object that a hash serialization builds. */
module HashSerializer {
  import opened Base
  import KeyPath
  import opened Tree

  /** The key contains at least one bracket group: `key.match(brackets)` */
  predicate HasBrackets(key: string) {
    KeyPath.GroupsFrom(key, 0) != []
  }

  /** `hashSerializer(result, key, value)`. A key with bracket groups is split
      into segments and assigned down the tree. A plain key is written
      directly: the first value is stored as a string, and a second value for
      the same key turns the field into an array of both, later values being
      pushed onto it. A falsy earlier value (the empty string) is replaced.
      Pushing onto an array with an own `push` property throws. */
  function HashSerialize(root: map<string, Node>, key: string, value: string): (r: Result<map<string, Node>>)
    // no field of the result object is ever removed
    ensures r.Ok? ==> root.Keys <= r.value.Keys
    // a plain key adds at most its own field
    ensures r.Ok? && !HasBrackets(key) ==> r.value.Keys == root.Keys + {key}
  {
    if HasBrackets(key) then
      var n :- Assign(Some(Obj(root)), KeyPath.Segments(key), value);
      Ok(n.fields)
    else
      var existing := Field(root, key);
      if Falsy(existing) then Ok(root[key := Str(value)])
      else if existing.value.Arr? then
        if Tree.PushMethod in existing.value.props then TypeError
        else Ok(root[key := Arr(existing.value.slots + [Some(Str(value))], existing.value.props)])
      else Ok(root[key := Arr([existing, Some(Str(value))], map[])])
  }

  /** The serializer lifted to an accumulator that may already hold a thrown
      TypeError: once one call throws, the serialization as a whole throws. */
  function HashStep(acc: Result<map<string, Node>>, key: string, value: string): (r: Result<map<string, Node>>)
    ensures acc.TypeError? ==> r.TypeError?
    ensures r.Ok? ==> acc.Ok? && acc.value.Keys <= r.value.Keys
  {
    match acc
    case TypeError => TypeError
    case Ok(root) => HashSerialize(root, key, value)
  }

  /** Once a call has thrown, no later pair can undo it. */
  lemma {:induction false} ThrownStaysThrown(pairs: seq<Pair>)
    ensures Fold(HashStep, TypeError, pairs) == TypeError
    decreases |pairs|
  {
    if pairs != [] {
      ThrownStaysThrown(pairs[..|pairs| - 1]);
    }
  }

  /** A hash serialization throws as soon as one of its pairs throws: when
      the pairs up to some point give a TypeError, so do all of them. */
  lemma ThrowAborts(acc: Result<map<string, Node>>, a: seq<Pair>, b: seq<Pair>)
    requires Fold(HashStep, acc, a).TypeError?
    ensures Fold(HashStep, acc, a + b) == TypeError
  {
    FoldAppend(HashStep, acc, a, b);
    ThrownStaysThrown(b);
  }

  /** A plain key throws only when its field holds an array with an own
      `push`. Otherwise it touches no field but its own, which ends up holding
      the new value: as a string when the field was falsy, otherwise as the
      last element of an array that keeps what was there before. */
  lemma PlainKeyTouchesOnlyItsField(root: map<string, Node>, key: string, value: string)
    requires !HasBrackets(key)
    ensures var old_ := Field(root, key);
            HashSerialize(root, key, value).TypeError? <==>
              old_.Some? && old_.value.Arr? && PushMethod in old_.value.props
    ensures var r := HashSerialize(root, key, value);
            r.Ok? ==>
            && key in r.value
            && r.value == root[key := r.value[key]]
            && (Falsy(Field(root, key)) ==> r.value[key] == Str(value))
            && (!Falsy(Field(root, key)) ==>
                  var old_ := Field(root, key).value;
                  var slots := r.value[key].slots;
                  && r.value[key].Arr?
                  && |slots| >= 1
                  && slots[|slots| - 1] == Some(Str(value))
                  && slots[..|slots| - 1] == (if old_.Arr? then old_.slots else [Some(old_)])
                  && r.value[key].props == (if old_.Arr? then old_.props else map[]))
  {
  }

  /** The pairs `(key, values[0]), (key, values[1]), ...` */
  function PairsFor(key: string, values: seq<string>): (r: seq<Pair>)
    ensures |r| == |values|
    ensures forall i | 0 <= i < |values| :: r[i] == Pair(key, values[i])
  {
    seq(|values|, i requires 0 <= i < |values| => Pair(key, values[i]))
  }

  /** The values as array elements of strings */
  function Strings(values: seq<string>): (r: seq<Option<Node>>)
    ensures |r| == |values|
    ensures forall i | 0 <= i < |values| :: r[i] == Some(Str(values[i]))
  {
    seq(|values|, i requires 0 <= i < |values| => Some(Str(values[i])))
  }

  /** Several values under the same plain key (a radio and a checkbox sharing
      a name, say) are collected into one array, in the order they were
      serialized; every other field stays as it was. */
  lemma {:induction false} RepeatedPlainKeyKeepsOrder(root: map<string, Node>, key: string, values: seq<string>)
    requires !HasBrackets(key)
    requires Falsy(Field(root, key))
    requires |values| >= 2 && values[0] != ""
    ensures Fold(HashStep, Ok(root), PairsFor(key, values)) == Ok(root[key := Arr(Strings(values), map[])])
    decreases |values|
  {
    var n := |values|;
    var init := values[..n - 1];
    assert PairsFor(key, values) == PairsFor(key, init) + [Pair(key, values[n - 1])];
    FoldSnoc(HashStep, Ok(root), PairsFor(key, init), Pair(key, values[n - 1]));
    if n == 2 {
      assert PairsFor(key, init) == [] + [Pair(key, values[0])];
      FoldSnoc(HashStep, Ok(root), [], Pair(key, values[0]));
      SecondPlainValue(root, key, values[0], values[1]);
      assert values == [values[0], values[1]];
    } else {
      RepeatedPlainKeyKeepsOrder(root, key, init);
      PushPlainValue(root, key, init, values[n - 1]);
      assert init + [values[n - 1]] == values;
    }
  }

  /** The second value under a plain key turns the field into an array of both. */
  lemma SecondPlainValue(root: map<string, Node>, key: string, v0: string, v1: string)
    requires !HasBrackets(key)
    requires Falsy(Field(root, key))
    requires v0 != ""
    ensures HashStep(HashStep(Ok(root), key, v0), key, v1) == Ok(root[key := Arr(Strings([v0, v1]), map[])])
  {
    var mid := root[key := Str(v0)];
    assert HashStep(Ok(root), key, v0) == Ok(mid);
    assert Field(mid, key) == Some(Str(v0));
    assert Strings([v0, v1]) == [Some(Str(v0)), Some(Str(v1))];
    assert mid[key := Arr([Some(Str(v0)), Some(Str(v1))], map[])] == root[key := Arr(Strings([v0, v1]), map[])];
  }

  /** A further value under a plain key is pushed onto the array of strings. */
  lemma PushPlainValue(root: map<string, Node>, key: string, init: seq<string>, v: string)
    requires !HasBrackets(key)
    ensures HashStep(Ok(root[key := Arr(Strings(init), map[])]), key, v)
         == Ok(root[key := Arr(Strings(init + [v]), map[])])
  {
    var mid := root[key := Arr(Strings(init), map[])];
    assert Field(mid, key) == Some(Arr(Strings(init), map[]));
    assert Strings(init) + [Some(Str(v))] == Strings(init + [v]);
    assert mid[key := Arr(Strings(init) + [Some(Str(v))], map[])] == root[key := Arr(Strings(init + [v]), map[])];
  }

  /** A key `p[c1][c2]...` (a non-empty plain prefix followed by bracket
      groups) writes the field `p` of the result and nothing else: the field
      becomes what assigning the groups below its old content gives, and the
      whole call throws exactly when that assignment throws. */
  lemma BracketedKeyWritesPrefixField(root: map<string, Node>, p: string, cs: seq<string>, value: string)
    requires p != "" && KeyPath.NoBrackets(p)
    requires cs != [] && KeyPath.AllWithoutBrackets(cs)
    ensures var c := Assign(Field(root, p), KeyPath.Wrapped(cs), value);
            HashSerialize(root, p + Concat(KeyPath.Wrapped(cs)), value)
              == if c.Ok? then Ok(root[p := c.value]) else TypeError
  {
    var key := p + Concat(KeyPath.Wrapped(cs));
    KeyPath.SegmentsRoundTrip(p, cs);
    assert |KeyPath.Segments(key)| >= 2;
    assert HasBrackets(key);
    assert KeyPath.IsBracket('[');
    assert Between(p).None?;
    WriteIntoMapping(root, p, KeyPath.Wrapped(cs), value);
  }

  /** The content of a group is matched with a pattern whose `.` does not
      match line terminators, so a group such as `[a\nb]` is taken as a plain
      field name: below a falsy field (nothing has been created there yet)
      that write throws. */
  lemma LineTerminatorInGroupThrows(root: map<string, Node>, p: string, c: string, value: string)
    requires p != "" && KeyPath.NoBrackets(p)
    requires KeyPath.NoBrackets(c) && !NoLineTerminators(c)
    requires Falsy(Field(root, p))
    ensures HashSerialize(root, p + KeyPath.Bracket(c), value) == TypeError
  {
    LineTerminatorGroupIsPlain(c);
    assert Concat(KeyPath.Wrapped([c])) == KeyPath.Bracket(c);
    BracketedKeyWritesPrefixField(root, p, [c], value);
  }

  /** ... and below a mapping it sets a field named by the whole group,
      brackets included. */
  lemma LineTerminatorInGroupNamesField(root: map<string, Node>, p: string, c: string, value: string, sub: map<string, Node>)
    requires p != "" && KeyPath.NoBrackets(p)
    requires KeyPath.NoBrackets(c) && !NoLineTerminators(c)
    requires Field(root, p) == Some(Obj(sub))
    ensures HashSerialize(root, p + KeyPath.Bracket(c), value)
         == Ok(root[p := Obj(sub[KeyPath.Bracket(c) := Str(value)])])
  {
    LineTerminatorGroupIsPlain(c);
    assert Concat(KeyPath.Wrapped([c])) == KeyPath.Bracket(c);
    BracketedKeyWritesPrefixField(root, p, [c], value);
    WriteIntoMapping(sub, KeyPath.Bracket(c), [], value);
    assert [KeyPath.Bracket(c)] + [] == KeyPath.Wrapped([c]);
  }

  lemma LineTerminatorGroupIsPlain(c: string)
    requires !NoLineTerminators(c)
    ensures Between(KeyPath.Bracket(c)).None?
    ensures KeyPath.Bracket(c) != AppendMarker
  {
    var i :| 0 <= i < |c| && IsLineTerminator(c[i]);
    assert KeyPath.Bracket(c)[i + 1] == c[i];
  }
}
