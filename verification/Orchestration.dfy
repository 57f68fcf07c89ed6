/**
 The order a group of applications is started in: dependency rules are read,
 names are compared without case, and each application follows what it depends on.
 */
module Orchestration {
  import opened Common
  import opened DepthFirst
  import opened Text

  datatype Rule = Malformed | Rule(name: string, dependencies: seq<string>)

  datatype Ordering =
    | Order(names: seq<string>)
    | InvalidRule(rule: string)
    | UnknownApplication(name: string)
    | CycleDetected(name: string)

  type Dependencies = map<string, seq<string>>

  // ---------- the rules ----------

  /** The lower case, trimmed, non-empty parts of a list. */
  function NamesIn(parts: seq<string>): (r: seq<string>)
    ensures forall d | d in r :: Lower(d) == d
  {
    if parts == [] then []
    else
      var name := Lower(TrimSpace(parts[0]));
      LowerIdempotent(TrimSpace(parts[0]));
      (if name == "" then [] else [name]) + NamesIn(parts[1..])
  }

  /** A rule reads `application=dependency,dependency`. */
  function ParseRule(text: string): (r: Rule)
    ensures r.Rule? ==> forall d | d in r.dependencies :: Lower(d) == d
  {
    var i := IndexOf(text, '=');
    if i == |text| || TrimSpace(text[..i]) == "" then Malformed
    else Rule(Lower(TrimSpace(text[..i])), NamesIn(Split(text[i + 1..], ',')))
  }

  function DependenciesOf(d: Dependencies, name: string): seq<string>
  {
    if name in d then d[name] else []
  }

  /** What the rules up to one say an application depends on. */
  ghost function Declared(rules: seq<string>): Dependencies
    requires forall t | t in rules :: ParseRule(t).Rule?
  {
    if rules == [] then map[]
    else
      WithRule(Declared(rules[..|rules| - 1]), ParseRule(rules[|rules| - 1]))
  }

  lemma {:induction false} DeclaredInLowerCase(rules: seq<string>)
    requires forall t | t in rules :: ParseRule(t).Rule?
    ensures forall k, d | k in Declared(rules) && d in Declared(rules)[k] :: Lower(d) == d
  {
    if rules != [] {
      DeclaredInLowerCase(rules[..|rules| - 1]);
    }
  }

  ghost predicate MalformedIn(rules: seq<string>, t: string)
  {
    t in rules && ParseRule(t).Malformed?
  }

  /** What one more rule changes. */
  function WithRule(d: Dependencies, rule: Rule): Dependencies
    requires rule.Rule?
  {
    if rule.dependencies == [] then d else d[rule.name := DependenciesOf(d, rule.name) + rule.dependencies]
  }

  lemma DeclaredGrows(rules: seq<string>, i: nat)
    requires i < |rules| && (forall t | t in rules[..i] :: ParseRule(t).Rule?) && ParseRule(rules[i]).Rule?
    ensures forall t | t in rules[..i + 1] :: ParseRule(t).Rule?
    ensures Declared(rules[..i + 1]) == WithRule(Declared(rules[..i]), ParseRule(rules[i]))
  {
    var more := rules[..i + 1];
    assert more == rules[..i] + [rules[i]] && more[..|more| - 1] == rules[..i];
  }

  // ---------- what the rules say ----------

  /** The name is written in the text, in any case and with white space around. */
  predicate Writes(text: string, name: string) { name != "" && Lower(TrimSpace(text)) == name }

  /** The text names something in front of its first equals sign. */
  ghost predicate WellFormed(text: string)
  {
    exists head, rest :: CutFirst(text, '=', head, rest) && TrimSpace(head) != ""
  }

  /** Some part of the text between commas writes the name. */
  ghost predicate Lists(text: string, b: string)
  {
    exists part :: PartOf(text, ',', part) && Writes(part, b)
  }

  /** The text has `a` in front of its first equals sign, and `b` in one of the parts between commas behind it. */
  ghost predicate Says(text: string, a: string, b: string)
  {
    exists head, rest :: CutFirst(text, '=', head, rest) && Writes(head, a) && Lists(rest, b)
  }

  lemma {:induction false} NamesInHold(parts: seq<string>, b: string)
    ensures b in NamesIn(parts) <==> exists part :: part in parts && Writes(part, b)
  {
    if parts != [] {
      NamesInHold(parts[1..], b);
      assert parts == [parts[0]] + parts[1..];
      assert parts[0] in parts && forall part | part in parts[1..] :: part in parts;
      assert b in NamesIn(parts) <==> Writes(parts[0], b) || b in NamesIn(parts[1..]);
    }
  }

  lemma {:induction false} ListsMeaning(text: string, b: string)
    ensures b in NamesIn(Split(text, ',')) <==> Lists(text, b)
  {
    NamesInHold(Split(text, ','), b);
    forall part
      ensures part in Split(text, ',') <==> PartOf(text, ',', part)
    {
      SplitHolds(text, ',', part);
    }
  }

  /** A text is cut at its first equals sign in one way. */
  lemma {:induction false} SaysWhereCut(text: string, a: string, b: string)
    requires IndexOf(text, '=') < |text|
    ensures var i := IndexOf(text, '=');
            && (WellFormed(text) <==> TrimSpace(text[..i]) != "")
            && (Says(text, a, b) <==> Writes(text[..i], a) && Lists(text[i + 1..], b))
  {
    IndexCuts(text, '=');
    if WellFormed(text) {
      var head, rest :| CutFirst(text, '=', head, rest) && TrimSpace(head) != "";
      CutsAtIndex(text, '=', head, rest);
    }
    if Says(text, a, b) {
      var head, rest :| CutFirst(text, '=', head, rest) && Writes(head, a) && Lists(rest, b);
      CutsAtIndex(text, '=', head, rest);
    }
  }

  lemma {:induction false} NothingWhereUncut(text: string, a: string, b: string)
    requires IndexOf(text, '=') == |text|
    ensures !WellFormed(text) && !Says(text, a, b)
  {
    forall head, rest
      ensures !CutFirst(text, '=', head, rest)
    {
      if CutFirst(text, '=', head, rest) {
        CutsAtIndex(text, '=', head, rest);
      }
    }
  }

  lemma RuleMeaning(text: string, a: string, b: string)
    ensures ParseRule(text).Rule? <==> WellFormed(text)
    ensures ParseRule(text).Rule? ==>
              (Says(text, a, b) <==> a == ParseRule(text).name && b in ParseRule(text).dependencies)
  {
    if IndexOf(text, '=') < |text| {
      SaysWhereCut(text, a, b);
      RuleWhereCut(text, a, b);
    } else {
      NothingWhereUncut(text, a, b);
    }
  }

  lemma {:induction false} RuleWhereCut(text: string, a: string, b: string)
    requires IndexOf(text, '=') < |text|
    ensures var i := IndexOf(text, '=');
            && (ParseRule(text).Rule? <==> TrimSpace(text[..i]) != "")
            && (ParseRule(text).Rule? ==>
                  (Writes(text[..i], a) && Lists(text[i + 1..], b) <==>
                   a == ParseRule(text).name && b in ParseRule(text).dependencies))
  {
    ListsMeaning(text[IndexOf(text, '=') + 1..], b);
  }

  /** An application depends on what some rule says it does, so that several rules for one name add up. */
  lemma {:induction false} DeclaredMeaning(rules: seq<string>, a: string, b: string)
    requires forall t | t in rules :: ParseRule(t).Rule?
    ensures b in DependenciesOf(Declared(rules), a) <==> exists t :: t in rules && Says(t, a, b)
    ensures a in Declared(rules) <==> DependenciesOf(Declared(rules), a) != []
  {
    if rules != [] {
      var rest, last := rules[..|rules| - 1], rules[|rules| - 1];
      assert rules == rest + [last];
      DeclaredMeaning(rest, a, b);
      RuleMeaning(last, a, b);
    }
  }

  method ReadRules(rules: seq<string>) returns (d: Dependencies, bad: string, ok: bool)
    ensures ok <==> forall t | t in rules :: ParseRule(t).Rule?
    ensures ok ==> d == Declared(rules)
    ensures !ok ==> MalformedIn(rules, bad)
  {
    d, bad := map[], "";
    for i := 0 to |rules|
      invariant forall t | t in rules[..i] :: ParseRule(t).Rule?
      invariant d == Declared(rules[..i])
    {
      var rule := ParseRule(rules[i]);
      if rule.Malformed? {
        assert rules[i] in rules;
        return d, rules[i], false;
      }
      DeclaredGrows(rules, i);
      d := WithRule(d, rule);
    }
    assert rules[..|rules|] == rules;
    ok := true;
  }

  // ---------- the graph ----------

  function Known(remotes: seq<string>): set<string> { set r | r in remotes :: Lower(r) }

  /** An application a rule names, on either side, that is not among those to start. */
  ghost predicate Unknown(remotes: seq<string>, d: Dependencies, name: string)
  {
    name !in Known(remotes) && (name in d || exists k :: k in d && name in d[k])
  }

  function StepsTo(names: seq<string>): (r: seq<Step<string, string>>)
    ensures |r| == |names|
    ensures forall i | 0 <= i < |r| :: r[i] == To(names[i], names[i])
  {
    seq(|names|, i requires 0 <= i < |names| => To(names[i], names[i]))
  }

  function GraphOf(remotes: seq<string>, d: Dependencies): Graph<string, string>
  {
    map k | k in Known(remotes) :: StepsTo(DependenciesOf(d, k))
  }

  lemma GraphMeaning(remotes: seq<string>, d: Dependencies, a: string, b: string)
    ensures Edge(GraphOf(remotes, d), a, b) <==> a in Known(remotes) && b in DependenciesOf(d, a)
    ensures !HasBroken(GraphOf(remotes, d), a)
  {
    if a in Known(remotes) && b in DependenciesOf(d, a) {
      var names := DependenciesOf(d, a);
      var i :| 0 <= i < |names| && names[i] == b;
      assert StepsTo(names)[i] in StepsTo(names);
    }
  }

  lemma GraphIsClosed(remotes: seq<string>, d: Dependencies)
    requires forall name :: !Unknown(remotes, d, name)
    requires forall k, x | k in d && x in d[k] :: Lower(x) == x
    ensures var g := GraphOf(remotes, d);
            Closed(g) && forall k, s: Step<string, string> | k in g && s in g[k] && s.To? :: SameName(s.node, s.entry)
  {
    var g := GraphOf(remotes, d);
    forall k, s: Step<string, string> | k in g && s in g[k] && s.To?
      ensures s.node in g && SameName(s.node, s.entry)
    {
      var names := DependenciesOf(d, k);
      var i :| 0 <= i < |names| && StepsTo(names)[i] == s;
      assert names[i] in d[k];
      assert !Unknown(remotes, d, names[i]);
    }
  }

  method FindUnknown(remotes: seq<string>, d: Dependencies) returns (name: string, found: bool)
    ensures found ==> Unknown(remotes, d, name)
    ensures !found ==> forall x :: !Unknown(remotes, d, x)
  {
    var known := Known(remotes);
    var pending := d.Keys;
    while pending != {}
      invariant pending <= d.Keys
      invariant forall k | k in d && k !in pending :: k in known && forall x | x in d[k] :: x in known
      decreases |pending|
    {
      var k :| k in pending;
      pending := pending - {k};
      if k !in known {
        return k, true;
      }
      for i := 0 to |d[k]|
        invariant forall j | 0 <= j < i :: d[k][j] in known
      {
        if d[k][i] !in known {
          return d[k][i], true;
        }
      }
    }
    name, found := "", false;
  }

  // ---------- the order ----------

  function Folded(names: seq<string>): (r: seq<string>)
    ensures |r| == |names|
    ensures forall i | 0 <= i < |r| :: r[i] == Lower(names[i])
  {
    seq(|names|, i requires 0 <= i < |names| => Lower(names[i]))
  }

  /** Every application once, ignoring case, after everything it depends on. */
  ghost predicate IsOrder(remotes: seq<string>, d: Dependencies, names: seq<string>)
  {
    var keys := Folded(names);
    && NoRepeats(keys)
    && (forall k :: k in keys <==> k in Known(remotes))
    && (forall i, b | 0 <= i < |keys| && b in DependenciesOf(d, keys[i]) :: b in keys[..i])
  }

  /**
   Reads the rules, checks the names and orders the applications. Malformed
   rules are reported first, then unknown names; after that a cycle is reported
   exactly when the case folded graph has one.
   */
  method OrchestrationOrder(remotes: seq<string>, rules: seq<string>) returns (r: Ordering)
    ensures r.InvalidRule? <==> !forall t | t in rules :: ParseRule(t).Rule?
    ensures r.InvalidRule? ==> MalformedIn(rules, r.rule)
    ensures !r.InvalidRule? ==> (r.UnknownApplication? <==> exists x :: Unknown(remotes, Declared(rules), x))
    ensures r.UnknownApplication? ==> Unknown(remotes, Declared(rules), r.name)
    ensures r.CycleDetected? ==> OnCycle(GraphOf(remotes, Declared(rules)), r.name)
    ensures r.Order? ==> IsOrder(remotes, Declared(rules), r.names)
    ensures r.Order? ==> forall k :: k in Known(remotes) ==> !OnCycle(GraphOf(remotes, Declared(rules)), k)
  {
    var d, bad, ok := ReadRules(rules);
    if !ok {
      return InvalidRule(bad);
    }
    var unknown, found := FindUnknown(remotes, d);
    if found {
      return UnknownApplication(unknown);
    }
    DeclaredInLowerCase(rules);
    GraphIsClosed(remotes, d);
    r := OrderNames(remotes, d);
  }

  /** Enters every application in turn, as far as the one it stops at. */
  method OrderNames(remotes: seq<string>, d: Dependencies) returns (r: Ordering)
    requires Closed(GraphOf(remotes, d))
    requires forall k, s: Step<string, string> | k in GraphOf(remotes, d) && s in GraphOf(remotes, d)[k] && s.To? ::
               SameName(s.node, s.entry)
    ensures r.CycleDetected? || r.Order?
    ensures r.CycleDetected? ==> OnCycle(GraphOf(remotes, d), r.name)
    ensures r.Order? ==> IsOrder(remotes, d, r.names)
    ensures r.Order? ==> forall k :: k in Known(remotes) ==> !OnCycle(GraphOf(remotes, d), k)
  {
    var g := GraphOf(remotes, d);
    var search := new Search(g, Known(remotes), SameName);
    for i := 0 to |remotes|
      invariant search.Valid() && search.stack == []
      invariant EnteredUpTo(remotes, i, search.order)
    {
      ghost var before := search.order;
      assert remotes[i] in remotes;
      var outcome := search.Enter(Lower(remotes[i]), remotes[i]);
      if outcome.CycleAt? {
        return CycleDetected(outcome.node);
      }
      forall k { GraphMeaning(remotes, d, k, k); }
      EnteredOneMore(remotes, i, before, search.order);
    }
    Finished(remotes, d, search.order, search.colours, search.entries);
    r := Order(search.entries);
  }

  predicate SameName(key: string, name: string) { Lower(name) == key }

  ghost predicate EnteredUpTo(remotes: seq<string>, i: nat, order: seq<string>)
    requires i <= |remotes|
  {
    forall j | 0 <= j < i :: Lower(remotes[j]) in order
  }

  lemma EnteredOneMore(remotes: seq<string>, i: nat, order: seq<string>, longer: seq<string>)
    requires i < |remotes| && EnteredUpTo(remotes, i, order) && order <= longer && Lower(remotes[i]) in longer
    ensures EnteredUpTo(remotes, i + 1, longer)
  {
    assert forall k | k in order :: k in longer;
  }

  lemma Finished(remotes: seq<string>, d: Dependencies, order: seq<string>, colours: map<string, Colour>,
                 entries: seq<string>)
    requires Consistent(GraphOf(remotes, d), Known(remotes), colours, order, [])
    requires EnteredUpTo(remotes, |remotes|, order)
    requires |entries| == |order| && forall i | 0 <= i < |order| :: SameName(order[i], entries[i])
    ensures IsOrder(remotes, d, entries)
    ensures forall k :: k in Known(remotes) ==> !OnCycle(GraphOf(remotes, d), k)
  {
    var g := GraphOf(remotes, d);
    assert Folded(entries) == order;
    forall k
      ensures k in order <==> k in Known(remotes)
      ensures k in Known(remotes) ==> !OnCycle(g, k)
    {
      if k in Known(remotes) {
        var r :| r in remotes && Lower(r) == k;
        ReachesItself(g, k);
        ListedIsSound(g, order, k, k);
      }
    }
    forall i, b | 0 <= i < |order| && b in DependenciesOf(d, order[i])
      ensures b in order[..i]
    {
      GraphMeaning(remotes, d, order[i], b);
      assert Resolved(g, order[i], order[..i]);
    }
  }
}
