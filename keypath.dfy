/** The key-path parser (`parseKeys`): splits a field name such as
    `account[address][city]` into its leading name and its bracket groups. */
module KeyPath {
  import opened Base

  predicate IsBracket(c: char) {
    c == '[' || c == ']'
  }

  predicate NoBrackets(s: string) {
    forall i | 0 <= i < |s| :: !IsBracket(s[i])
  }

  /** Index of the first bracket character at or after `i`, or `|s|` */
  function NextBracket(s: string, i: nat): (j: nat)
    requires i <= |s|
    ensures i <= j <= |s|
    ensures j < |s| ==> IsBracket(s[j])
    ensures forall k | i <= k < j :: !IsBracket(s[k])
    decreases |s| - i
  {
    if i == |s| || IsBracket(s[i]) then i else NextBracket(s, i + 1)
  }

  /** A bracket group: `[`, a run without brackets, `]` */
  predicate IsGroup(g: string) {
    |g| >= 2 && g[0] == '[' && g[|g| - 1] == ']' && NoBrackets(g[1..|g| - 1])
  }

  /** A match of the global pattern `\[[^[\]]*]`: the group is `s[start..end]` */
  datatype Match = Match(start: nat, end: nat)

  /** What `exec` of the global bracket pattern returns when its `lastIndex` is
      `from`: the leftmost group that starts at or after `from`, or none. */
  function Exec(s: string, from: nat): (m: Option<Match>)
    requires from <= |s|
    ensures m.Some? ==> from <= m.value.start < m.value.end <= |s|
    decreases |s| - from
  {
    if from == |s| then None
    else if s[from] == '[' && NextBracket(s, from + 1) < |s| && s[NextBracket(s, from + 1)] == ']' then
      Some(Match(from, NextBracket(s, from + 1) + 1))
    else Exec(s, from + 1)
  }

  /** All groups from position `from` on, left to right */
  function GroupsFrom(s: string, from: nat): (r: seq<string>)
    requires from <= |s|
    decreases |s| - from
  {
    match Exec(s, from)
    case None => []
    case Some(m) => [s[m.start..m.end]] + GroupsFrom(s, m.end)
  }

  /** Each match of `exec` is a bracket group. */
  lemma ExecMatchIsGroup(s: string, from: nat)
    requires from <= |s|
    requires Exec(s, from).Some?
    ensures IsGroup(s[Exec(s, from).value.start..Exec(s, from).value.end])
    decreases |s| - from
  {
    if s[from] == '[' && NextBracket(s, from + 1) < |s| && s[NextBracket(s, from + 1)] == ']' {
      var j := NextBracket(s, from + 1);
      var g := s[from..j + 1];
      assert forall k | 1 <= k < |g| - 1 :: g[k] == s[from + k];
      assert g[1..|g| - 1] == s[from + 1..j];
    } else {
      ExecMatchIsGroup(s, from + 1);
    }
  }

  /** Every segment found after the leading name is a bracket group. */
  lemma {:induction false} GroupsAreGroups(s: string, from: nat)
    requires from <= |s|
    ensures forall k | 0 <= k < |GroupsFrom(s, from)| :: IsGroup(GroupsFrom(s, from)[k])
    decreases |s| - from
  {
    match Exec(s, from)
    case None =>
    case Some(m) =>
      ExecMatchIsGroup(s, from);
      GroupsAreGroups(s, m.end);
  }

  /** A group `s[i..j]` ends at the first bracket after its `[`. */
  lemma GroupEndsAtNextBracket(s: string, i: nat, j: nat)
    requires i < j <= |s| && IsGroup(s[i..j])
    ensures s[i] == '[' && NextBracket(s, i + 1) == j - 1 && s[j - 1] == ']'
  {
    var g := s[i..j];
    assert g[0] == s[i];
    assert g[|g| - 1] == s[j - 1];
    var c := g[1..|g| - 1];
    forall k | i + 1 <= k < j - 1
      ensures !IsBracket(s[k])
    {
      assert s[k] == g[k - i];
      assert g[k - i] == c[k - i - 1];
    }
    NextBracketAt(s, i + 1, j - 1);
  }

  /** `exec` finds the leftmost group: no group starts between `lastIndex`
      and the match, the group starting at the match is the match itself, and
      when nothing is found no group starts at or after `lastIndex`. */
  lemma {:induction false} ExecIsLeftmost(s: string, from: nat)
    requires from <= |s|
    ensures Exec(s, from).None? ==>
              forall i, j | from <= i < j <= |s| :: !IsGroup(s[i..j])
    ensures Exec(s, from).Some? ==>
              var m := Exec(s, from).value;
              && (forall i, j | from <= i < m.start && i < j <= |s| :: !IsGroup(s[i..j]))
              && (forall j | m.start < j <= |s| :: IsGroup(s[m.start..j]) ==> j == m.end)
    decreases |s| - from
  {
    if from < |s| {
      var found := s[from] == '[' && NextBracket(s, from + 1) < |s| && s[NextBracket(s, from + 1)] == ']';
      forall j | from < j <= |s| && IsGroup(s[from..j])
        ensures found && j == NextBracket(s, from + 1) + 1
      {
        GroupEndsAtNextBracket(s, from, j);
      }
      if !found {
        ExecIsLeftmost(s, from + 1);
      }
    }
  }

  /** No group starts strictly inside a match. */
  lemma NoGroupInsideMatch(s: string, from: nat, i: nat, j: nat)
    requires from <= |s| && Exec(s, from).Some?
    requires Exec(s, from).value.start < i < Exec(s, from).value.end
    requires i < j <= |s|
    ensures !IsGroup(s[i..j])
  {
    var m := Exec(s, from).value;
    ExecMatchIsGroup(s, from);
    var g := s[m.start..m.end];
    if i < m.end - 1 {
      assert s[i] == g[1..|g| - 1][i - m.start - 1];
    } else {
      assert s[i] == g[|g| - 1];
    }
    assert s[i..j][0] == s[i] != '[';
  }

  /** Every group starting at or after `lastIndex` is one of the groups the
      loop collects from there. */
  lemma {:induction false} GroupFound(s: string, from: nat, i: nat, j: nat)
    requires from <= i < j <= |s| && IsGroup(s[i..j])
    ensures s[i..j] in GroupsFrom(s, from)
    decreases |s| - from
  {
    ExecIsLeftmost(s, from);
    var m := Exec(s, from).value;
    if i == m.start {
      assert GroupsFrom(s, from)[0] == s[i..j];
    } else {
      if i < m.end {
        NoGroupInsideMatch(s, from, i, j);
      }
      GroupFound(s, m.end, i, j);
      assert GroupsFrom(s, from) == [s[m.start..m.end]] + GroupsFrom(s, m.end);
    }
  }

  /** The segments of a key: the leading run before any bracket (the pattern
      `^([^[\]]*)`), kept only when non-empty, then every bracket group. */
  function Segments(s: string): (r: seq<string>)
    ensures forall k | 0 <= k < |r| :: r[k] != ""
    ensures GroupsFrom(s, 0) != [] ==> r != []
  {
    GroupsAreGroups(s, 0);
    var n := NextBracket(s, 0);
    (if n == 0 then [] else [s[..n]]) + GroupsFrom(s, 0)
  }

  /** Every bracket group anywhere in the key is one of its segments. */
  lemma EveryGroupIsASegment(s: string, i: nat, j: nat)
    requires i < j <= |s| && IsGroup(s[i..j])
    ensures s[i..j] in Segments(s)
  {
    GroupFound(s, 0, i, j);
  }

  /** `parseKeys`: the prefix match, then the `exec` loop pushing each group. */
  method ParseKeys(s: string) returns (keys: seq<string>)
    ensures keys == Segments(s)
  {
    keys := [];
    var n := NextBracket(s, 0);
    if n > 0 {
      keys := keys + [s[..n]];
    }
    var lastIndex := 0;
    var found := Exec(s, lastIndex);
    while found.Some?
      invariant lastIndex <= |s|
      invariant found == Exec(s, lastIndex)
      invariant keys + GroupsFrom(s, lastIndex) == Segments(s)
      decreases |s| - lastIndex
    {
      keys := keys + [s[found.value.start..found.value.end]];
      lastIndex := found.value.end;
      found := Exec(s, lastIndex);
    }
  }

  /** The group `[c]` around a content `c` */
  function Bracket(c: string): string {
    "[" + c + "]"
  }

  /** The groups around each of the contents `cs`, in order */
  function Wrapped(cs: seq<string>): (r: seq<string>)
    ensures |r| == |cs|
    ensures forall i | 0 <= i < |cs| :: r[i] == Bracket(cs[i])
    decreases |cs|
  {
    if cs == [] then [] else [Bracket(cs[0])] + Wrapped(cs[1..])
  }

  predicate AllWithoutBrackets(cs: seq<string>) {
    forall i | 0 <= i < |cs| :: NoBrackets(cs[i])
  }

  /** Scanning a stretch without `[` finds nothing there. */
  lemma {:induction false} ExecSkips(s: string, i: nat, k: nat)
    requires i <= k <= |s|
    requires forall j | i <= j < k :: s[j] != '['
    ensures Exec(s, i) == Exec(s, k)
    decreases k - i
  {
    if i < k {
      ExecSkips(s, i + 1, k);
    }
  }

  /** A group sitting at `i` is what `exec` finds from `i`. */
  lemma ExecFindsGroup(s: string, i: nat, c: string)
    requires i + |c| + 2 <= |s|
    requires s[i..i + |c| + 2] == Bracket(c)
    requires NoBrackets(c)
    ensures Exec(s, i) == Some(Match(i, i + |c| + 2))
  {
    var j := i + |c| + 1;
    assert s[j] == Bracket(c)[|c| + 1];
    forall k | i + 1 <= k < j
      ensures !IsBracket(s[k])
    {
      assert s[k] == Bracket(c)[k - i] == c[k - i - 1];
    }
    NextBracketAt(s, i + 1, j);
  }

  /** `NextBracket` is the first bracket position, so any position with that
      property is it. */
  lemma NextBracketAt(s: string, i: nat, j: nat)
    requires i <= j <= |s|
    requires j < |s| ==> IsBracket(s[j])
    requires forall k | i <= k < j :: !IsBracket(s[k])
    ensures NextBracket(s, i) == j
  {
  }

  /** The groups of a string that ends in a run of bracket groups, starting at
      the first of them, are exactly those groups. */
  lemma {:induction false} GroupsOfWrapped(s: string, i: nat, cs: seq<string>)
    requires i <= |s|
    requires s[i..] == Concat(Wrapped(cs))
    requires AllWithoutBrackets(cs)
    ensures GroupsFrom(s, i) == Wrapped(cs)
    decreases |cs|
  {
    if cs == [] {
      assert i == |s|;
    } else {
      var c := cs[0];
      var e := i + |c| + 2;
      WrappedCons(cs);
      SplitSuffix(s, i, Bracket(c), Concat(Wrapped(cs[1..])));
      ExecFindsGroup(s, i, c);
      GroupsOfWrapped(s, e, cs[1..]);
      assert GroupsFrom(s, i) == [s[i..e]] + GroupsFrom(s, e);
    }
  }

  lemma WrappedCons(cs: seq<string>)
    requires cs != []
    ensures Wrapped(cs) == [Bracket(cs[0])] + Wrapped(cs[1..])
    ensures Concat(Wrapped(cs)) == Bracket(cs[0]) + Concat(Wrapped(cs[1..]))
  {
  }

  lemma SplitSuffix(s: string, i: nat, a: string, b: string)
    requires i <= |s|
    requires s[i..] == a + b
    ensures i + |a| <= |s|
    ensures s[i..i + |a|] == a
    ensures s[i + |a|..] == b
  {
    assert s[i..i + |a|] == (a + b)[..|a|];
    assert s[i + |a|..] == (a + b)[|a|..];
  }

  /** A key without `[` or `]` is a single segment, the whole key (none when
      the key is empty). */
  lemma NoBracketsIsOneSegment(s: string)
    requires NoBrackets(s)
    ensures Segments(s) == if s == "" then [] else [s]
  {
    NextBracketAt(s, 0, |s|);
    ExecSkips(s, 0, |s|);
    assert s[..|s|] == s;
  }

  /** A key that starts with a bracket has no leading name segment: each of its
      segments is a bracket group. */
  lemma LeadingBracketHasNoPrefix(s: string)
    requires s != [] && IsBracket(s[0])
    ensures Segments(s) == GroupsFrom(s, 0)
    ensures forall k | 0 <= k < |Segments(s)| :: IsGroup(Segments(s)[k])
  {
    GroupsAreGroups(s, 0);
  }

  /** A key built from a name without brackets followed by bracket groups
      splits into exactly that name (when non-empty) and those groups, so
      concatenating its segments gives the key back. */
  lemma {:induction false} SegmentsRoundTrip(p: string, cs: seq<string>)
    requires NoBrackets(p)
    requires AllWithoutBrackets(cs)
    ensures Segments(p + Concat(Wrapped(cs))) == (if p == "" then [] else [p]) + Wrapped(cs)
    ensures Concat(Segments(p + Concat(Wrapped(cs)))) == p + Concat(Wrapped(cs))
  {
    var s := p + Concat(Wrapped(cs));
    assert s[..|p|] == p;
    if cs != [] {
      assert Wrapped(cs)[0] == Bracket(cs[0]);
      assert Concat(Wrapped(cs)) == Bracket(cs[0]) + Concat(Wrapped(cs[1..]));
      assert s[|p|] == '[';
    }
    NextBracketAt(s, 0, |p|);
    ExecSkips(s, 0, |p|);
    assert s[|p|..] == Concat(Wrapped(cs));
    GroupsOfWrapped(s, |p|, cs);
    var w := Wrapped(cs);
    if p != "" {
      assert ([p] + w)[1..] == w;
    } else {
      assert [] + w == w;
    }
  }

  /** The example of a nested append key. */
  lemma SegmentsOfNestedAppend()
    ensures Segments("a[b][]") == ["a", "[b]", "[]"]
  {
    assert Bracket("") == "[]" && Bracket("b") == "[b]";
    assert Wrapped([""]) == [Bracket("")] + Wrapped([]);
    assert Wrapped(["b", ""]) == [Bracket("b")] + Wrapped([""]);
    assert Wrapped(["b", ""]) == ["[b]", "[]"];
    assert Concat(["[]"]) == "[]";
    assert Concat(["[b]", "[]"]) == "[b][]";
    assert "a" + Concat(Wrapped(["b", ""])) == "a[b][]";
    SegmentsRoundTrip("a", ["b", ""]);
  }

  /** Text outside the groups is ignored: a stray `]`, or an unclosed `[`,
      between two groups contributes no segment. */
  lemma StrayTextIgnored()
    ensures Segments("a[b]x]y[c]") == ["a", "[b]", "[c]"]
    ensures Segments("a[b[c]") == ["a", "[c]"]
  {
    StrayCloseIgnored();
    UnclosedOpenIgnored();
  }

  lemma StrayCloseIgnored()
    ensures Segments("a[b]x]y[c]") == ["a", "[b]", "[c]"]
  {
    var s := "a[b]x]y[c]";
    NextBracketAt(s, 0, 1);
    ExecSkips(s, 0, 1);
    ExecFindsGroup(s, 1, "b");
    ExecSkips(s, 4, 7);
    ExecFindsGroup(s, 7, "c");
    assert s[1..4] == "[b]" && s[7..10] == "[c]" && s[..1] == "a";
    assert GroupsFrom(s, 10) == [];
    assert GroupsFrom(s, 4) == ["[c]"];
    assert GroupsFrom(s, 0) == ["[b]", "[c]"];
  }

  lemma UnclosedOpenIgnored()
    ensures Segments("a[b[c]") == ["a", "[c]"]
  {
    var t := "a[b[c]";
    NextBracketAt(t, 0, 1);
    NextBracketAt(t, 2, 3);
    assert Exec(t, 1) == Exec(t, 2);
    ExecSkips(t, 0, 1);
    ExecSkips(t, 2, 3);
    ExecFindsGroup(t, 3, "c");
    assert t[3..6] == "[c]" && t[..1] == "a";
    assert GroupsFrom(t, 6) == [];
    assert GroupsFrom(t, 0) == ["[c]"];
  }
}
