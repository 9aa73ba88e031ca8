// Routes as a list, in the order they were registered, and what a lookup finds in it.
module RouteList {
  import opened Wrappers

  type Handler(==, !new)
  type Name = string

  const SLASH: Name := "/"

  /** A component of a registered path. An empty one ends the registration unfinished. */
  datatype Segment = Literal(name: Name) | Variable(name: Name) | Wild | Dropped

  /** nodeForComponent's reading of a component. */
  function Parse(component: Name): (seg: Segment)
    ensures seg == Dropped <==> component == ""
  {
    var n := |component|;
    if n == 0 then Dropped
    else if component == "*" then Wild
    else if n >= 3 && component[0] == '{' && component[n - 1] == '}' then Variable(component[1..n - 1])
    else Literal(component)
  }

  function Pattern(components: seq<Name>): seq<Segment> {
    if components == [] then []
    else if components[0] == SLASH then Pattern(components[1..])
    else if components[0] == "" then [Dropped]
    else [Parse(components[0])] + Pattern(components[1..])
  }

  /** What is left of a route behind its first segments; id is its place in the order of registration. */
  datatype Route = Route(pattern: seq<Segment>, handler: Handler, id: nat) {
    function Tail(): Route
      requires pattern != []
    {
      this.(pattern := pattern[1..])
    }
  }

  predicate StartsWith(r: Route, seg: Segment) { r.pattern != [] && r.pattern[0] == seg }

  predicate StartsVariable(r: Route) { r.pattern != [] && r.pattern[0].Variable? }

  /** The routes that go on behind a segment. */
  function Tails(routes: seq<Route>, seg: Segment): (ts: seq<Route>)
    ensures |ts| <= |routes|
  {
    if routes == [] then []
    else Tails(routes[..|routes| - 1], seg) + (if StartsWith(routes[|routes| - 1], seg) then [routes[|routes| - 1].Tail()] else [])
  }

  /** Those that go on with a variable, whole. */
  function WithVariable(routes: seq<Route>): (vs: seq<Route>)
    ensures |vs| <= |routes|
    ensures forall v :: v in vs ==> v in routes && StartsVariable(v)
  {
    if routes == [] then []
    else WithVariable(routes[..|routes| - 1]) + (if StartsVariable(routes[|routes| - 1]) then [routes[|routes| - 1]] else [])
  }

  /** The last route that ends here. */
  function LastHere(routes: seq<Route>): (r: Option<Route>)
    ensures r.Some? ==> r.value in routes && r.value.pattern == []
  {
    if routes == [] then None
    else if routes[|routes| - 1].pattern == [] then Some(routes[|routes| - 1])
    else LastHere(routes[..|routes| - 1])
  }

  /** What one more registration adds. */
  lemma AddRoute(routes: seq<Route>, r: Route)
    ensures forall seg :: Tails(routes + [r], seg) == Tails(routes, seg) + (if StartsWith(r, seg) then [r.Tail()] else [])
    ensures WithVariable(routes + [r]) == WithVariable(routes) + (if StartsVariable(r) then [r] else [])
    ensures LastHere(routes + [r]) == if r.pattern == [] then Some(r) else LastHere(routes)
  {
    assert (routes + [r])[..|routes|] == routes;
  }

  function Longest(routes: seq<Route>): (n: nat)
    ensures forall r :: r in routes ==> |r.pattern| <= n
  {
    if routes == [] then 0
    else
      var n, last := Longest(routes[..|routes| - 1]), routes[|routes| - 1];
      assert routes == routes[..|routes| - 1] + [last];
      if |last.pattern| > n then |last.pattern| else n
  }

  lemma {:induction false} TailsIn(routes: seq<Route>, seg: Segment, t: Route)
    ensures t in Tails(routes, seg) <==> exists r :: r in routes && StartsWith(r, seg) && r.Tail() == t
  {
    if routes != [] {
      var last := routes[|routes| - 1];
      assert routes == routes[..|routes| - 1] + [last];
      TailsIn(routes[..|routes| - 1], seg, t);
    }
  }

  lemma TailsShorter(routes: seq<Route>, seg: Segment)
    ensures Tails(routes, seg) != [] ==> Longest(Tails(routes, seg)) < Longest(routes)
  {
    if Tails(routes, seg) != [] {
      LongestIs(Tails(routes, seg));
      var t :| t in Tails(routes, seg) && |t.pattern| == Longest(Tails(routes, seg));
      TailsIn(routes, seg, t);
    }
  }

  lemma {:induction false} LongestIs(routes: seq<Route>)
    requires routes != []
    ensures exists r :: r in routes && |r.pattern| == Longest(routes)
  {
    var last, front := routes[|routes| - 1], routes[..|routes| - 1];
    assert routes == front + [last];
    if front != [] && Longest(front) > |last.pattern| {
      LongestIs(front);
    } else {
      assert last in routes;
    }
  }

  lemma OneShorter(r: Route)
    requires r.pattern != []
    ensures Longest([r.Tail()]) < |r.pattern|
  {
    LongestIs([r.Tail()]);
  }

  /** A component taken for a variable. */
  datatype Binding = Binding(name: Name, component: Name)

  /** The route a search ends with, and what it binds on the way, outermost first. */
  datatype Hit = Hit(handler: Handler, id: nat, bindings: seq<Binding>)

  /** findHandler, on the list: variables oldest first, then the literal, then the wildcard. */
  function Search(routes: seq<Route>, components: seq<Name>): (hit: Option<Hit>)
    decreases Longest(routes), 1, 0
  {
    if components != [] && components[0] != SLASH then
      var p, rest := components[0], components[1..];
      var v := SearchVariables(WithVariable(routes), p, rest, Longest(routes));
      if v.Some? then v
      else
        var l := SearchTails(routes, Literal(p), rest);
        if l.Some? then l else SearchTails(routes, Wild, rest)
    else
      var here := LastHere(routes);
      if here.Some? then Some(Hit(here.value.handler, here.value.id, []))
      else SearchTails(routes, Wild, if components == [] then [] else components[1..])
  }

  function SearchTails(routes: seq<Route>, seg: Segment, components: seq<Name>): Option<Hit>
    decreases Longest(routes), 0, 0
  {
    TailsShorter(routes, seg);
    if Tails(routes, seg) == [] then None else Search(Tails(routes, seg), components)
  }

  function SearchVariables(vs: seq<Route>, p: Name, components: seq<Name>, ghost bound: nat): Option<Hit>
    requires forall v :: v in vs ==> StartsVariable(v) && |v.pattern| <= bound
    decreases bound, 0, |vs|
  {
    if vs == [] then None
    else
      assert StartsVariable(vs[0]);
      OneShorter(vs[0]);
      var hit := Search([vs[0].Tail()], components);
      assert forall v :: v in vs[1..] ==> v in vs;
      if hit.Some? then Some(hit.value.(bindings := [Binding(vs[0].pattern[0].name, p)] + hit.value.bindings))
      else SearchVariables(vs[1..], p, components, bound)
  }

  lemma SearchNothing(components: seq<Name>)
    ensures Search([], components) == None
  {
  }

  /** One variable after another. */
  lemma SearchFrom(vs: seq<Route>, i: nat, p: Name, components: seq<Name>, bound: nat)
    requires i <= |vs| && forall v :: v in vs ==> StartsVariable(v) && |v.pattern| <= bound
    ensures forall v :: v in vs[i..] ==> StartsVariable(v) && |v.pattern| <= bound
    ensures i < |vs| ==> StartsVariable(vs[i]) && forall v :: v in vs[i + 1..] ==> StartsVariable(v) && |v.pattern| <= bound
    ensures SearchVariables(vs[i..], p, components, bound) ==
            if i == |vs| then None
            else
              var hit := Search([vs[i].Tail()], components);
              if hit.Some? then Some(hit.value.(bindings := [Binding(vs[i].pattern[0].name, p)] + hit.value.bindings))
              else SearchVariables(vs[i + 1..], p, components, bound)
  {
    hide Search;
    assert forall v :: v in vs[i..] ==> v in vs;
    if i < |vs| {
      assert vs[i] in vs && vs[i..][0] == vs[i] && vs[i..][1..] == vs[i + 1..];
    }
  }

  // ---- what a search finds

  /** A registered path matches the components of a request; a trailing * may stand for nothing. */
  predicate Matches(pattern: seq<Segment>, components: seq<Name>)
    decreases |pattern|
  {
    if components != [] && components[0] != SLASH then
      && pattern != []
      && (pattern[0].Variable? || pattern[0].Wild? || pattern[0] == Literal(components[0]))
      && Matches(pattern[1..], components[1..])
    else
      pattern == [] || (pattern[0].Wild? && Matches(pattern[1..], if components == [] then [] else components[1..]))
  }

  function Kind(s: Segment): nat {
    match s
    case Variable(_) => 0
    case Literal(_) => 1
    case Wild => 2
    case Dropped => 3
  }

  /** Which of two matching routes wins: at the first difference, the older variable, then the literal, then the wildcard; of equal ones the later. */
  predicate Wins(a: Route, b: Route)
    decreases |a.pattern|
  {
    if a.pattern == [] then b.pattern == [] ==> a.id >= b.id
    else if b.pattern == [] then false
    else if Kind(a.pattern[0]) != Kind(b.pattern[0]) then Kind(a.pattern[0]) < Kind(b.pattern[0])
    else if a.pattern[0].Variable? then a.id <= b.id
    else Wins(a.Tail(), b.Tail())
  }

  /** Ids are given out in order. */
  predicate InOrder(routes: seq<Route>) {
    forall i, j :: 0 <= i < j < |routes| ==> routes[i].id < routes[j].id
  }

  /** The winner among the routes that match, as it was when the search began. */
  ghost predicate IsBest(routes: seq<Route>, components: seq<Name>, best: Route) {
    && best in routes && Matches(best.pattern, components)
    && forall r :: r in routes && Matches(r.pattern, components) ==> Wins(best, r)
  }

  /** What a matching path binds, outermost first. */
  function BindingsOf(pattern: seq<Segment>, components: seq<Name>): seq<Binding> {
    if pattern == [] then []
    else if components != [] && components[0] != SLASH then
      (if pattern[0].Variable? then [Binding(pattern[0].name, components[0])] else []) + BindingsOf(pattern[1..], components[1..])
    else BindingsOf(pattern[1..], if components == [] then [] else components[1..])
  }

  /** The hit is this route, with this route's bindings. */
  predicate HitIs(r: Route, hit: Hit, bindings: seq<Binding>) {
    r.id == hit.id && r.handler == hit.handler && hit.bindings == bindings
  }

  ghost predicate Finds(routes: seq<Route>, components: seq<Name>, hit: Option<Hit>) {
    if hit.None? then forall r :: r in routes ==> !Matches(r.pattern, components)
    else exists best :: IsBest(routes, components, best) && HitIs(best, hit.value, BindingsOf(best.pattern, components))
  }

  lemma TailsLast(routes: seq<Route>, seg: Segment)
    ensures routes == [] ==> Tails(routes, seg) == []
    ensures routes != [] ==>
            var front, last := routes[..|routes| - 1], routes[|routes| - 1];
            Tails(routes, seg) == if StartsWith(last, seg) then Tails(front, seg) + [last.(pattern := last.pattern[1..])] else Tails(front, seg)
  {
  }

  lemma {:induction false} TailsInOrder(routes: seq<Route>, seg: Segment)
    requires InOrder(routes)
    ensures InOrder(Tails(routes, seg))
    ensures routes != [] ==> forall t :: t in Tails(routes, seg) ==> t.id <= routes[|routes| - 1].id
  {
    hide InOrder, Tails;
    TailsLast(routes, seg);
    if routes != [] {
      var front, last := routes[..|routes| - 1], routes[|routes| - 1];
      assert routes == front + [last];
      OrderFront(front, last);
      TailsInOrder(front, seg);
      if StartsWith(last, seg) { OrderSnoc(Tails(front, seg), last.Tail()); }
    } else {
      OrderNothing();
    }
  }

  lemma WithVariableLast(routes: seq<Route>)
    ensures routes == [] ==> WithVariable(routes) == []
    ensures routes != [] ==>
            var front, last := routes[..|routes| - 1], routes[|routes| - 1];
            WithVariable(routes) == if StartsVariable(last) then WithVariable(front) + [last] else WithVariable(front)
  {
  }

  lemma {:induction false} VariablesInOrder(routes: seq<Route>)
    requires InOrder(routes)
    ensures InOrder(WithVariable(routes))
    ensures routes != [] ==> forall t :: t in WithVariable(routes) ==> t.id <= routes[|routes| - 1].id
  {
    hide InOrder, StartsVariable, WithVariable;
    WithVariableLast(routes);
    if routes != [] {
      var front, last := routes[..|routes| - 1], routes[|routes| - 1];
      assert routes == front + [last];
      OrderFront(front, last);
      VariablesInOrder(front);
      if StartsVariable(last) { OrderSnoc(WithVariable(front), last); }
    } else {
      OrderNothing();
    }
  }

  lemma {:induction false} VariablesAreThere(routes: seq<Route>)
    ensures forall r :: r in routes && StartsVariable(r) ==> r in WithVariable(routes)
  {
    hide StartsVariable, WithVariable;
    WithVariableLast(routes);
    if routes != [] {
      var front, last := routes[..|routes| - 1], routes[|routes| - 1];
      assert routes == front + [last];
      VariablesAreThere(front);
    }
  }

  lemma OrderNothing()
    ensures InOrder([])
  {
  }

  lemma OrderFront(front: seq<Route>, last: Route)
    requires InOrder(front + [last])
    ensures InOrder(front) && forall r :: r in front ==> r.id < last.id
  {
    var all := front + [last];
    assert forall i :: 0 <= i < |front| ==> all[i] == front[i];
    assert all[|front|] == last;
  }

  lemma OrderSnoc(front: seq<Route>, last: Route)
    requires InOrder(front) && forall r :: r in front ==> r.id < last.id
    ensures InOrder(front + [last])
  {
  }

  lemma {:induction false} LastHereIs(routes: seq<Route>)
    requires InOrder(routes)
    ensures var l := LastHere(routes);
            forall r :: r in routes && r.pattern == [] ==> l.Some? && r.id <= l.value.id
  {
    if routes != [] {
      var front, last := routes[..|routes| - 1], routes[|routes| - 1];
      assert routes == front + [last];
      LastHereIs(front);
    }
  }

  /** The winner among the routes that go on behind a segment. */
  ghost predicate BestBehind(routes: seq<Route>, seg: Segment, components: seq<Name>, best: Route) {
    && best in routes && StartsWith(best, seg) && Matches(best.pattern[1..], components)
    && forall r :: r in routes && StartsWith(r, seg) && Matches(r.pattern[1..], components) ==> Wins(best.Tail(), r.Tail())
  }

  ghost predicate FindsBehind(routes: seq<Route>, seg: Segment, components: seq<Name>, hit: Option<Hit>) {
    if hit.None? then forall r :: r in routes && StartsWith(r, seg) ==> !Matches(r.pattern[1..], components)
    else exists best :: BestBehind(routes, seg, components, best) && HitIs(best, hit.value, BindingsOf(best.pattern[1..], components))
  }

  /** The oldest of those that go on with a variable and match. */
  ghost predicate Oldest(vs: seq<Route>, components: seq<Name>, best: Route) {
    && best in vs && StartsVariable(best) && Matches(best.pattern[1..], components)
    && forall v :: v in vs && StartsVariable(v) && Matches(v.pattern[1..], components) ==> best.id <= v.id
  }

  ghost predicate FindsVariable(vs: seq<Route>, p: Name, components: seq<Name>, hit: Option<Hit>) {
    if hit.None? then forall v :: v in vs && StartsVariable(v) ==> !Matches(v.pattern[1..], components)
    else exists best :: Oldest(vs, components, best)
                        && HitIs(best, hit.value, [Binding(best.pattern[0].name, p)] + BindingsOf(best.pattern[1..], components))
  }

  lemma {:induction false} FoundBehind(routes: seq<Route>, seg: Segment, components: seq<Name>)
    requires InOrder(routes)
    ensures FindsBehind(routes, seg, components, SearchTails(routes, seg, components))
    decreases Longest(routes), 0, 0
  {
    hide Matches, Wins, Tails, Longest, Search;
    TailsShorter(routes, seg);
    TailsInOrder(routes, seg);
    var ts := Tails(routes, seg);
    forall r | r in routes && StartsWith(r, seg)
      ensures r.Tail() in ts && r.Tail().pattern == r.pattern[1..]
    {
      TailsIn(routes, seg, r.Tail());
    }
    if ts != [] {
      Found(ts, components);
      var hit := Search(ts, components);
      if hit.None? {
        forall r | r in routes && StartsWith(r, seg)
          ensures !Matches(r.pattern[1..], components)
        {
          assert r.Tail() in ts;
        }
      } else {
        var t :| IsBest(ts, components, t) && HitIs(t, hit.value, BindingsOf(t.pattern, components));
        TailsIn(routes, seg, t);
        var best :| best in routes && StartsWith(best, seg) && best.Tail() == t;
        forall r | r in routes && StartsWith(r, seg) && Matches(r.pattern[1..], components)
          ensures Wins(best.Tail(), r.Tail())
        {
          assert r.Tail() in ts;
        }
        assert BestBehind(routes, seg, components, best);
        assert best.id == t.id && best.handler == t.handler && best.pattern[1..] == t.pattern;
      }
    }
  }

  lemma {:induction false} FoundVariable(vs: seq<Route>, p: Name, components: seq<Name>, bound: nat)
    requires InOrder(vs) && forall v :: v in vs ==> StartsVariable(v) && |v.pattern| <= bound
    ensures FindsVariable(vs, p, components, SearchVariables(vs, p, components, bound))
    decreases bound, 0, |vs|
  {
    hide Matches, Wins, Tails, Search, BindingsOf;
    if vs != [] {
      var first := vs[0];
      assert StartsVariable(first);
      var t := first.Tail();
      OneShorter(first);
      Found([t], components);
      var hit := Search([t], components);
      assert vs == [first] + vs[1..];
      if hit.Some? {
        forall v | v in vs
          ensures first.id <= v.id
        {
          var k :| 0 <= k < |vs| && vs[k] == v;
        }
        assert Oldest(vs, components, first);
      } else {
        assert t in [t];
        FoundVariable(vs[1..], p, components, bound);
        VariableRest(vs, p, components, SearchVariables(vs[1..], p, components, bound));
      }
    }
  }

  lemma VariableRest(vs: seq<Route>, p: Name, components: seq<Name>, hit: Option<Hit>)
    requires vs != [] && StartsVariable(vs[0]) && !Matches(vs[0].pattern[1..], components)
    requires FindsVariable(vs[1..], p, components, hit)
    ensures FindsVariable(vs, p, components, hit)
  {
    hide Matches, BindingsOf;
    assert vs == [vs[0]] + vs[1..];
    if hit.Some? {
      var best :| Oldest(vs[1..], components, best)
                  && HitIs(best, hit.value, [Binding(best.pattern[0].name, p)] + BindingsOf(best.pattern[1..], components));
      assert Oldest(vs, components, best);
    }
  }

  /** What the three kinds of route found in that order come to, at a component. */
  lemma AtComponent(routes: seq<Route>, components: seq<Name>, v: Option<Hit>, l: Option<Hit>, w: Option<Hit>)
    requires components != [] && components[0] != SLASH
    requires forall r :: r in routes && StartsVariable(r) ==> r in WithVariable(routes)
    requires FindsVariable(WithVariable(routes), components[0], components[1..], v)
    requires FindsBehind(routes, Literal(components[0]), components[1..], l)
    requires FindsBehind(routes, Wild, components[1..], w)
    ensures Finds(routes, components, if v.Some? then v else if l.Some? then l else w)
  {
    hide WithVariable;
    var hit := if v.Some? then v else if l.Some? then l else w;
    if v.Some? {
      var best :| Oldest(WithVariable(routes), components[1..], best)
                  && HitIs(best, v.value, [Binding(best.pattern[0].name, components[0])] + BindingsOf(best.pattern[1..], components[1..]));
      assert IsBest(routes, components, best);
      assert BindingsOf(best.pattern, components) == v.value.bindings;
    } else if hit.Some? {
      var seg := if l.Some? then Literal(components[0]) else Wild;
      var best :| BestBehind(routes, seg, components[1..], best) && HitIs(best, hit.value, BindingsOf(best.pattern[1..], components[1..]));
      assert BindingsOf(best.pattern, components) == [] + BindingsOf(best.pattern[1..], components[1..]);
      forall r | r in routes && Matches(r.pattern, components)
        ensures Wins(best, r)
      {
        assert r.Tail().pattern == r.pattern[1..];
      }
      assert IsBest(routes, components, best);
    }
  }

  /** The same where the request's components end. */
  lemma AtEnd(routes: seq<Route>, components: seq<Name>, here: Option<Route>, w: Option<Hit>)
    requires components == [] || components[0] == SLASH
    requires here.Some? ==> here.value in routes && here.value.pattern == []
    requires forall r :: r in routes && r.pattern == [] ==> here.Some? && r.id <= here.value.id
    requires FindsBehind(routes, Wild, if components == [] then [] else components[1..], w)
    ensures Finds(routes, components, if here.Some? then Some(Hit(here.value.handler, here.value.id, [])) else w)
  {
    var rest := if components == [] then [] else components[1..];
    if here.Some? {
      assert IsBest(routes, components, here.value) && BindingsOf(here.value.pattern, components) == [];
    } else if w.Some? {
      var best :| BestBehind(routes, Wild, rest, best) && HitIs(best, w.value, BindingsOf(best.pattern[1..], rest));
      forall r | r in routes && Matches(r.pattern, components)
        ensures Wins(best, r)
      {
        assert r.Tail().pattern == r.pattern[1..];
      }
      assert IsBest(routes, components, best);
    }
  }

  /** The search finds the winner of the routes that match, and finds nothing only when none does. */
  lemma {:induction false} Found(routes: seq<Route>, components: seq<Name>)
    requires InOrder(routes)
    ensures Finds(routes, components, Search(routes, components))
    decreases Longest(routes), 1, 0
  {
    hide Longest, SearchTails, SearchVariables, Tails, WithVariable, LastHere, Finds, FindsBehind, FindsVariable, Matches, BindingsOf;
    if components != [] && components[0] != SLASH {
      var rest, vs := components[1..], WithVariable(routes);
      VariablesInOrder(routes);
      VariablesAreThere(routes);
      FoundVariable(vs, components[0], rest, Longest(routes));
      FoundBehind(routes, Literal(components[0]), rest);
      FoundBehind(routes, Wild, rest);
      AtComponent(routes, components, SearchVariables(vs, components[0], rest, Longest(routes)),
                  SearchTails(routes, Literal(components[0]), rest), SearchTails(routes, Wild, rest));
    } else {
      var rest := if components == [] then [] else components[1..];
      LastHereIs(routes);
      FoundBehind(routes, Wild, rest);
      AtEnd(routes, components, LastHere(routes), SearchTails(routes, Wild, rest));
    }
  }

  // ---- what a registered component says

  /** A star, a name in braces, or itself; "{}" is itself, and nothing at all ends the registration. */
  lemma ParseExactly(component: Name)
    ensures Parse(component) == Wild <==> component == "*"
    ensures Parse(component) == Dropped <==> component == ""
    ensures forall v :: v != "" ==> (Parse(component) == Variable(v) <==> component == "{" + v + "}")
    ensures (forall v :: v != "" ==> component != "{" + v + "}") && component != "*" && component != "" <==>
            Parse(component) == Literal(component)
    ensures !Parse(component).Variable? || Parse(component).name != ""
  {
    var n := |component|;
    if n >= 3 && component[0] == '{' && component[n - 1] == '}' {
      assert component == "{" + component[1..n - 1] + "}";
    }
    forall v: Name | v != ""
      ensures Parse("{" + v + "}") == Variable(v)
    {
      var c := "{" + v + "}";
      assert c[0] == '{' && c[|c| - 1] == '}' && c[1..|c| - 1] == v;
    }
  }

  /** The components that are no slash, one segment each. */
  function NoSlash(components: seq<Name>): seq<Name> {
    if components == [] then []
    else if components[0] == "/" then NoSlash(components[1..])
    else [components[0]] + NoSlash(components[1..])
  }

  lemma {:induction false} PatternExactly(components: seq<Name>)
    requires "" !in components
    ensures var cs, pattern := NoSlash(components), Pattern(components);
            |pattern| == |cs| && forall i :: 0 <= i < |cs| ==> pattern[i] == Parse(cs[i])
  {
    hide Parse;
    if components != [] {
      PatternExactly(components[1..]);
      var cs, rest := NoSlash(components), Pattern(components[1..]);
      if components[0] != "/" {
        forall i | 0 <= i < |cs|
          ensures Pattern(components)[i] == Parse(cs[i])
        {
          if i > 0 { assert cs[i] == NoSlash(components[1..])[i - 1]; }
        }
      }
    }
  }
}
