/** The string machines: a machine holds a state and a list of rules, and
    each `next` produces a new value from them. `CharSub` rewrites its state
    character by character with the first rule whose key is that character
    and keeps the result as its new state; `Rand` picks one of its rules. */
module Machines {
  import opened Outcomes

  /** Why `next` yields no value: the base machine implements nothing, and
      a random pick from no rules fails. */
  datatype MachineError = NotImplemented | EmptyRules

  /** A substitution rule: a key and the text that replaces it. */
  type Rule = (string, string)

  /** The base `Machine.__next__`: always an error. */
  function MachineNext<T>(state: T): (r: Result<T, MachineError>)
    ensures r == Err(NotImplemented)
  {
    Err(NotImplemented)
  }

  /** `Rand.__next__`, given the random index `draw` the source draws from
      `0 .. |rules| - 1`: the rule at that index, or an error when there are
      no rules. The state is not involved. */
  function RandNext<T>(rules: seq<T>, draw: int): (r: Result<T, MachineError>)
    requires rules != [] ==> 0 <= draw < |rules|
    ensures r.Err? <==> rules == []
    ensures r.Err? ==> r.error == EmptyRules
    ensures r.Ok? ==> r.value in rules
  {
    if rules == [] then Err(EmptyRules) else Ok(rules[draw])
  }

  /** Every element of the rules is a possible pick of `Rand`. */
  lemma RandReachesEveryRule<T>(rules: seq<T>, x: T)
    requires x in rules
    ensures exists k :: 0 <= k < |rules| && RandNext(rules, k) == Ok(x)
  {
    var k :| 0 <= k < |rules| && rules[k] == x;
    assert RandNext(rules, k) == Ok(x);
  }

  /** Rule `k` is the first whose key is the one-character string `c`. */
  predicate FirstMatch(rules: seq<Rule>, c: char, k: int) {
    && 0 <= k < |rules|
    && rules[k].0 == [c]
    && forall m :: 0 <= m < k ==> rules[m].0 != [c]
  }

  /** What one character turns into: the text of the first rule keyed by
      it, or nothing when no rule is. */
  function Replacement(rules: seq<Rule>, c: char): string {
    if rules == [] then ""
    else if rules[0].0 == [c] then rules[0].1
    else Replacement(rules[1..], c)
  }

  /** The new state: each character of `s`, in order, replaced. */
  function Substitute(s: string, rules: seq<Rule>): string {
    if s == [] then ""
    else Substitute(s[..|s| - 1], rules) + Replacement(rules, s[|s| - 1])
  }

  /** Skipping rules whose key does not match leaves the replacement alone. */
  lemma {:induction false} ReplacementSkip(rules: seq<Rule>, c: char, k: nat)
    requires k <= |rules|
    requires forall m :: 0 <= m < k ==> rules[m].0 != [c]
    ensures Replacement(rules, c) == Replacement(rules[k..], c)
    decreases k
  {
    if k > 0 {
      assert rules[1..][k - 1..] == rules[k..];
      ReplacementSkip(rules[1..], c, k - 1);
    }
  }

  /** The replacement is the text of the first matching rule. */
  lemma ReplacementIsFirstMatch(rules: seq<Rule>, c: char, k: int)
    requires FirstMatch(rules, c, k)
    ensures Replacement(rules, c) == rules[k].1
  {
    ReplacementSkip(rules, c, k);
  }

  /** A character no rule is keyed by contributes nothing. */
  lemma ReplacementUnmatched(rules: seq<Rule>, c: char)
    requires forall m :: 0 <= m < |rules| ==> rules[m].0 != [c]
    ensures Replacement(rules, c) == ""
  {
    ReplacementSkip(rules, c, |rules|);
  }

  /** Substitution works character by character: the result for `s + t` is
      the result for `s` followed by the result for `t`. */
  lemma {:induction false} SubstituteAppend(s: string, t: string, rules: seq<Rule>)
    ensures Substitute(s + t, rules) == Substitute(s, rules) + Substitute(t, rules)
    decreases |t|
  {
    if t == [] {
      assert s + t == s;
    } else {
      var t' := t[..|t| - 1];
      assert (s + t)[..|s + t| - 1] == s + t';
      SubstituteAppend(s, t', rules);
    }
  }

  /** A state none of whose characters is a key becomes empty. */
  lemma {:induction false} SubstituteUnmatched(s: string, rules: seq<Rule>)
    requires forall i, m :: 0 <= i < |s| && 0 <= m < |rules| ==> rules[m].0 != [s[i]]
    ensures Substitute(s, rules) == ""
    decreases |s|
  {
    if s != [] {
      SubstituteUnmatched(s[..|s| - 1], rules);
      ReplacementUnmatched(rules, s[|s| - 1]);
    }
  }

  /** When every character has a rule and every rule's text is a single
      character, the new state is as long as the old one. */
  lemma {:induction false} SubstituteKeepsLength(s: string, rules: seq<Rule>)
    requires forall m :: 0 <= m < |rules| ==> |rules[m].1| == 1
    requires forall i :: 0 <= i < |s| ==> exists m :: 0 <= m < |rules| && rules[m].0 == [s[i]]
    ensures |Substitute(s, rules)| == |s|
    decreases |s|
  {
    if s != [] {
      var c := s[|s| - 1];
      SubstituteKeepsLength(s[..|s| - 1], rules);
      var m :| 0 <= m < |rules| && rules[m].0 == [c];
      var k := FirstMatchExists(rules, c, m);
      ReplacementIsFirstMatch(rules, c, k);
    }
  }

  /** Some rule keyed by `c` means a first one. */
  lemma {:induction false} FirstMatchExists(rules: seq<Rule>, c: char, m: int) returns (k: int)
    requires 0 <= m < |rules| && rules[m].0 == [c]
    ensures FirstMatch(rules, c, k) && k <= m
    decreases m
  {
    if exists j :: 0 <= j < m && rules[j].0 == [c] {
      var j :| 0 <= j < m && rules[j].0 == [c];
      k := FirstMatchExists(rules, c, j);
    } else {
      k := m;
    }
  }

  /** A `CharSub` machine: its state is rewritten by `next`. */
  class CharSub {
    var state: string
    var rules: seq<Rule>

    /** `CharSub(s, rules)`. */
    constructor (s: string, rules: seq<Rule>)
      ensures state == s && this.rules == rules
    {
      state := s;
      this.rules := rules;
    }

    /** `CharSub.__next__`: the substituted state, which also becomes the
        machine's state, so the next call rewrites this output. */
    method Next() returns (r: string)
      modifies this`state
      ensures r == Substitute(old(state), rules)
      ensures state == r
    {
      var input := state;
      var newState := "";
      for i := 0 to |input|
        invariant newState == Substitute(input[..i], rules)
        invariant state == if i == 0 then input else newState
      {
        var c := input[i];
        var k := 0;
        while k < |rules|
          invariant 0 <= k <= |rules|
          invariant forall m :: 0 <= m < k ==> rules[m].0 != [c]
          invariant newState == Substitute(input[..i], rules)
        {
          if [c] == rules[k].0 {
            ReplacementIsFirstMatch(rules, c, k);
            newState := newState + rules[k].1;
            break;
          }
          k := k + 1;
        }
        if k == |rules| {
          ReplacementUnmatched(rules, c);
        }
        assert input[..i + 1][..i] == input[..i];
        state := newState;
      }
      assert input[..|input|] == input;
      r := state;
    }
  }
}
