// The routing tree: nodes linked through a dictionary, a list of variables and a wildcard,
// each lookup in it equal to the search of the list of routes registered.
module Routing {
  import opened Wrappers
  import opened RouteList

  /** The request whose variables a successful lookup sets. */
  class WebRequest {
    const decode: Name -> Option<Name>
    var urlVariables: map<Name, Name>

    constructor (decode: Name -> Option<Name>)
      ensures this.decode == decode && urlVariables == map[]
    {
      this.decode, urlVariables := decode, map[];
    }
  }

  /** A component as it is stored: decoded, when it can be. */
  function Stored(decode: Name -> Option<Name>, component: Name): Name {
    var d := decode(component);
    if d.Some? then d.value else component
  }

  /** The innermost binding is written first, so that of equal names the outermost stays. */
  function Written(decode: Name -> Option<Name>, m: map<Name, Name>, bindings: seq<Binding>): map<Name, Name> {
    if bindings == [] then m
    else Written(decode, m, bindings[1..])[bindings[0].name := Stored(decode, bindings[0].component)]
  }

  datatype NodeKind = RouteRoot | RoutePath(name: Name) | RouteWildCard | RouteVariable(name: Name)

  /** Writing nothing, and writing the same again. */
  lemma WrittenTwice(kind: NodeKind, decode: Name -> Option<Name>, m: map<Name, Name>, bindings: seq<Binding>, p: Name)
    ensures Written(decode, m, []) == m
    ensures var w := Written(decode, m, bindings); Owned(kind, decode, Owned(kind, decode, w, p), p) == Owned(kind, decode, w, p)
  {
    hide Stored;
  }

  /** One binding outside the others. */
  lemma OneMore(decode: Name -> Option<Name>, m: map<Name, Name>, v: Route, p: Name, bindings: seq<Binding>)
    requires StartsVariable(v)
    ensures Written(decode, m, [Binding(v.pattern[0].name, p)] + bindings) ==
            Owned(RouteVariable(v.pattern[0].name), decode, Written(decode, m, bindings), p)
  {
    assert ([Binding(v.pattern[0].name, p)] + bindings)[1..] == bindings;
  }

  /** successfulRoute: only a variable has anything to write. */
  function Owned(kind: NodeKind, decode: Name -> Option<Name>, m: map<Name, Name>, component: Name): map<Name, Name> {
    if kind.RouteVariable? then m[kind.name := Stored(decode, component)] else m
  }

  class RouteNode {
    const kind: NodeKind
    var handlerGenerator: Option<Handler>
    var wildCard: RouteNode?
    var variables: seq<RouteNode>
    var subNodes: map<Name, RouteNode>
    ghost var routes: seq<Route>
    ghost var Repr: set<RouteNode>

    ghost function Children(): set<RouteNode>
      reads `wildCard, `variables, `subNodes
    {
      (if wildCard == null then {} else {wildCard}) + (set v | v in variables) + subNodes.Values
    }

    /** A tree of nodes. */
    ghost predicate Tree()
      reads `wildCard, `variables, `subNodes, `Repr, Repr - {this}
    {
      && this in Repr
      && (forall c :: c in Children() ==> c in Repr && c != this && c.Repr < Repr && this !in c.Repr)
      && (forall c, d :: c in Children() && d in Children() && c != d ==> c.Repr !! d.Repr)
      && (forall i, j :: 0 <= i < j < |variables| ==> variables[i] != variables[j])
    }

    /** Each child is of the kind its place asks for. */
    ghost predicate Kinds()
      reads `wildCard, `variables, `subNodes
    {
      && (wildCard != null ==> wildCard.kind == RouteWildCard)
      && (forall i :: 0 <= i < |variables| ==> variables[i].kind.RouteVariable?)
      && (forall p :: p in subNodes ==> subNodes[p].kind == RoutePath(p))
    }

    ghost predicate HandlerStands()
      reads `handlerGenerator, `routes
    {
      handlerGenerator == if LastHere(routes).Some? then Some(LastHere(routes).value.handler) else None
    }

    ghost predicate WildCardStands()
      reads `wildCard, `routes, wildCard
    {
      Tails(routes, Wild) == if wildCard == null then [] else wildCard.routes
    }

    ghost predicate PathsStand()
      reads `subNodes, `routes, subNodes.Values
    {
      forall p :: Tails(routes, Literal(p)) == if p in subNodes then subNodes[p].routes else []
    }

    ghost predicate VariablesStand()
      reads `variables, `routes, variables
    {
      var vs := WithVariable(routes);
      && |variables| == |vs|
      && forall i :: 0 <= i < |variables| ==>
           StartsVariable(vs[i]) && variables[i].routes == [vs[i].Tail()] && variables[i].kind == RouteVariable(vs[i].pattern[0].name)
    }

    /** The node stands for its routes, and each child for what is left of those that lead to it. */
    ghost predicate Stands()
      reads this, Children()
    {
      HandlerStands() && WildCardStands() && PathsStand() && VariablesStand()
    }

    /** All but what it stands for. */
    ghost predicate Linked()
      reads `wildCard, `variables, `subNodes, `Repr, Repr - {this}
      decreases Repr, 0
    {
      && Tree() && Kinds()
      && forall c :: c in Children() ==> c.Valid()
    }

    ghost predicate Valid()
      reads this, Repr
      ensures Valid() ==> this in Repr
      decreases Repr, 1
    {
      Linked() && Stands()
    }

    constructor (kind: NodeKind)
      ensures Valid() && this.kind == kind && routes == [] && Repr == {this}
    {
      this.kind := kind;
      handlerGenerator, wildCard, variables, subNodes := None, null, [], map[];
      routes, Repr := [], {this};
    }

    lemma ChildKinds()
      requires Linked()
      ensures wildCard != null ==> wildCard.kind == RouteWildCard && wildCard in Children() && wildCard.Valid()
      ensures forall p :: p in subNodes ==> subNodes[p].kind == RoutePath(p) && subNodes[p] in Children() && subNodes[p].Valid()
      ensures Kinds() && this !in Children() && forall c :: c in Children() ==> c.Repr <= Repr
      ensures this in Repr && Children() <= Repr && forall i, j :: 0 <= i < j < |variables| ==> variables[i] != variables[j]
    {
    }

    /** A new child has a place of its own. */
    twostate lemma NewChild(new node: RouteNode)
      requires old(Linked()) && fresh(node) && node.Valid() && node.Repr == {node}
      requires Repr == old(Repr) + {node} && Kinds()
      requires Children() == old(Children()) + {node}
      requires forall o: RouteNode :: o in old(Repr) && o != this ==> unchanged(o)
      requires forall i, j :: 0 <= i < j < |variables| ==> variables[i] != variables[j]
      ensures Linked()
    {
      hide Stands, Kinds;
    }

    method NewWildCard() returns (node: RouteNode)
      requires Linked() && wildCard == null
      modifies this`wildCard, this`Repr
      ensures Linked() && wildCard == node && fresh(node) && node.routes == []
      ensures Repr == old(Repr) + {node} && Children() == old(Children()) + {node}
    {
      hide Stands, Tree;
      ChildKinds();
      node := new RouteNode(RouteWildCard);
      wildCard := node;
      Repr := Repr + {node};
      NewChild(node);
    }

    method NewVariable(name: Name) returns (node: RouteNode)
      requires Linked()
      modifies this`variables, this`Repr
      ensures Linked() && variables == old(variables) + [node] && fresh(node) && node.routes == [] && node.kind == RouteVariable(name)
      ensures Repr == old(Repr) + {node} && Children() == old(Children()) + {node}
    {
      hide Stands, Tree;
      ChildKinds();
      node := new RouteNode(RouteVariable(name));
      variables := variables + [node];
      Repr := Repr + {node};
      assert Children() == old(Children()) + {node};
      NewChild(node);
    }

    method NewPath(name: Name) returns (node: RouteNode)
      requires Linked() && name !in subNodes
      modifies this`subNodes, this`Repr
      ensures Linked() && subNodes == old(subNodes)[name := node] && fresh(node) && node.routes == []
      ensures Repr == old(Repr) + {node} && Children() == old(Children()) + {node}
    {
      hide Stands, Tree;
      ChildKinds();
      node := new RouteNode(RoutePath(name));
      NewValue(subNodes, name, node);
      subNodes := subNodes[name := node];
      Repr := Repr + {node};
      NewChild(node);
    }

    /** The child for a component, made when there is none; a variable's is always made. */
    method NodeForComponent(component: Name) returns (node: RouteNode?)
      requires Linked()
      modifies this
      ensures Linked() && handlerGenerator == old(handlerGenerator) && routes == old(routes)
      ensures Repr == if node == null then old(Repr) else old(Repr) + {node}
      ensures match Parse(component) {
                case Dropped => node == null && wildCard == old(wildCard) && variables == old(variables) && subNodes == old(subNodes)
                case Wild => node != null && wildCard == node && variables == old(variables) && subNodes == old(subNodes)
                case Variable(n) => node != null && variables == old(variables) + [node]
                                    && wildCard == old(wildCard) && subNodes == old(subNodes)
                case Literal(n) => node != null && subNodes == old(subNodes)[n := node]
                                   && wildCard == old(wildCard) && variables == old(variables)
              }
      ensures node != null ==> node in Children() && (node in old(Children()) || (fresh(node) && node.routes == []))
      ensures match Parse(component) {
                case Dropped => true
                case Wild => if old(wildCard) == null then fresh(node) else node == old(wildCard)
                case Variable(n) => node.kind == RouteVariable(n) && fresh(node)
                case Literal(n) => if n in old(subNodes) then node == old(subNodes[n]) else fresh(node)
              }
    {
      hide Stands, Tree, Kinds, Linked;
      ChildKinds();
      if component == "" {
        return null;
      }
      if component == "*" {
        node := wildCard;
        if wildCard == null {
          node := NewWildCard();
        }
        assert Repr == old(Repr) + {node};
        return;
      }
      var n := |component|;
      if n >= 3 && component[0] == '{' && component[n - 1] == '}' {
        node := NewVariable(component[1..n - 1]);
        return;
      }
      if component in subNodes {
        node := subNodes[component];
        assert subNodes[component := node] == subNodes;
        assert Repr == old(Repr) + {node};
        return;
      }
      node := NewPath(component);
    }

    /** Only the child's part of the tree, and this node, changed. */
    twostate predicate Confined(node: RouteNode)
      reads *
    {
      forall o: RouteNode :: o in old(Repr) && o != this && o !in old(node.Repr) ==> unchanged(o)
    }

    /** What a growing child does not reach. */
    twostate lemma Untouched(node: RouteNode)
      requires old(Linked()) && node in old(Children()) && Confined(node)
      ensures forall c :: c in old(Children()) && c != node ==>
                && c.Valid() && c.Repr == old(c.Repr) && c.routes == old(c.routes) && c.Repr !! old(node.Repr)
                && c in old(Repr) && c.Repr <= old(Repr) && this !in c.Repr
    {
      hide Stands, Kinds;
      forall c | c in old(Children()) && c != node
        ensures && c.Valid() && c.Repr == old(c.Repr) && c.routes == old(c.routes) && c.Repr !! old(node.Repr)
                && c in old(Repr) && c.Repr <= old(Repr) && this !in c.Repr
      {
        assert old(c.Valid()) && old(c in c.Repr);
        assert unchanged(c);
        assert forall o :: o in c.Repr ==> unchanged(o);
      }
    }

    /** A child has grown; the others are as they were. */
    twostate lemma GrownChild(node: RouteNode)
      requires old(Linked()) && node in old(Children()) && node.Valid() && fresh(node.Repr - old(node.Repr)) && old(node.Repr) <= node.Repr
      requires Children() == old(Children()) && Kinds() && variables == old(variables)
      requires Repr == old(Repr) + node.Repr && Confined(node)
      ensures Linked()
      ensures forall c :: c in Children() && c != node ==> c.routes == old(c.routes)
    {
      hide Stands, Kinds, Valid, Confined;
      Untouched(node);
    }

    /** Registers the rest of a path with a child. */
    method Grow(node: RouteNode, g: seq<Name>, h: Handler, ghost id: nat)
      requires Linked() && node in Children()
      modifies node.Repr, this`Repr
      ensures Linked() && fresh(Repr - old(Repr)) && old(Repr) <= Repr
      ensures node.routes == old(node.routes) + [Route(Pattern(g), h, id)]
      ensures forall c :: c in Children() && c != node ==> c.routes == old(c.routes)
      ensures handlerGenerator == old(handlerGenerator) && wildCard == old(wildCard) && variables == old(variables)
      ensures subNodes == old(subNodes) && routes == old(routes)
      decreases |g|, 1
    {
      hide Stands, Pattern;
      assert this !in node.Repr;
      node.AddPathSegments(g, h, id);
      Repr := Repr + node.Repr;
      GrownChild(node);
    }

    /** Nothing but one child's routes, and the node's own, changed. */
    twostate predicate OthersStand(new node: RouteNode?, new r: Route)
      reads *
    {
      && routes == old(routes) + [r]
      && forall c :: c in old(Children()) && c != node ==> c.routes == old(c.routes)
    }

    twostate lemma WildCardKept(new r: Route, new node: RouteNode?)
      requires old(WildCardStands()) && OthersStand(node, r) && !StartsWith(r, Wild) && wildCard == old(wildCard)
      requires node != null && wildCard != null ==> wildCard != node
      ensures WildCardStands()
    {
      AddRoute(old(routes), r);
    }

    twostate lemma PathsKept(new r: Route, new node: RouteNode?)
      requires old(PathsStand()) && OthersStand(node, r) && (r.pattern == [] || !r.pattern[0].Literal?) && subNodes == old(subNodes)
      requires forall p :: p in subNodes ==> subNodes[p] != node
      ensures PathsStand()
    {
      hide Tails;
      AddRoute(old(routes), r);
      assert forall p :: p in subNodes ==> subNodes[p] in old(Children());
    }

    twostate lemma VariablesKept(new r: Route, new node: RouteNode?)
      requires old(VariablesStand()) && OthersStand(node, r) && !StartsVariable(r) && variables == old(variables)
      requires forall i :: 0 <= i < |variables| ==> variables[i] != node
      ensures VariablesStand()
    {
      hide WithVariable;
      AddRoute(old(routes), r);
      assert forall i :: 0 <= i < |variables| ==> variables[i] in old(Children());
    }

    twostate lemma HandlerKept(new r: Route, new node: RouteNode?)
      requires old(HandlerStands()) && OthersStand(node, r) && r.pattern != [] && handlerGenerator == old(handlerGenerator)
      ensures HandlerStands()
    {
      AddRoute(old(routes), r);
    }

    twostate lemma StandsDropped(new r: Route)
      requires old(Stands()) && OthersStand(null, r) && handlerGenerator == old(handlerGenerator) && r.pattern != [] && r.pattern[0] == Dropped
      requires wildCard == old(wildCard) && variables == old(variables) && subNodes == old(subNodes)
      ensures Stands()
    {
      hide HandlerStands, WildCardStands, PathsStand, VariablesStand, OthersStand;
      HandlerKept(r, null);
      WildCardKept(r, null);
      PathsKept(r, null);
      VariablesKept(r, null);
    }

    twostate lemma StandsWild(new node: RouteNode, new r: Route)
      requires old(Stands()) && Kinds() && OthersStand(node, r) && handlerGenerator == old(handlerGenerator) && r.pattern != [] && r.pattern[0] == Wild
      requires wildCard == node && variables == old(variables) && subNodes == old(subNodes)
      requires node.routes == (if old(wildCard) == null then [] else old(wildCard.routes)) + [r.Tail()]
      ensures Stands()
    {
      hide HandlerStands, PathsStand, VariablesStand;
      HandlerKept(r, node);
      PathsKept(r, node);
      VariablesKept(r, node);
      AddRoute(old(routes), r);
    }

    twostate lemma VariableAdded(new node: RouteNode, new r: Route)
      requires old(VariablesStand()) && OthersStand(node, r) && StartsVariable(r) && fresh(node)
      requires variables == old(variables) + [node] && node.kind == RouteVariable(r.pattern[0].name) && node.routes == [r.Tail()]
      ensures VariablesStand()
    {
      hide WithVariable, Tails, LastHere;
      AddRoute(old(routes), r);
      forall i | 0 <= i < |old(variables)|
        ensures variables[i] == old(variables)[i] && variables[i].routes == old(variables[i].routes)
      {
        assert variables[i] == old(variables)[i] && variables[i] in old(Children());
      }
    }

    twostate lemma StandsVariable(new node: RouteNode, new r: Route)
      requires old(Stands()) && Kinds() && OthersStand(node, r)
      requires handlerGenerator == old(handlerGenerator) && r.pattern != [] && r.pattern[0].Variable? && fresh(node)
      requires wildCard == old(wildCard) && variables == old(variables) + [node] && subNodes == old(subNodes)
      requires node.kind == RouteVariable(r.pattern[0].name) && node.routes == [r.Tail()]
      ensures Stands()
    {
      hide HandlerStands, WildCardStands, PathsStand, VariablesStand, OthersStand;
      HandlerKept(r, node);
      WildCardKept(r, node);
      PathsKept(r, node);
      VariableAdded(node, r);
    }

    twostate lemma PathAdded(new node: RouteNode, new r: Route)
      requires old(PathsStand()) && Kinds() && OthersStand(node, r) && r.pattern != [] && r.pattern[0].Literal?
      requires subNodes == old(subNodes)[r.pattern[0].name := node]
      requires node.routes == (if r.pattern[0].name in old(subNodes) then old(subNodes[r.pattern[0].name].routes) else []) + [r.Tail()]
      ensures PathsStand()
    {
      hide Tails, WithVariable, LastHere;
      AddRoute(old(routes), r);
      var n := r.pattern[0].name;
      assert n in subNodes && node.kind == RoutePath(n);
      forall p | p != n && p in subNodes
        ensures p in old(subNodes) && subNodes[p] == old(subNodes[p]) && subNodes[p].routes == old(subNodes[p].routes)
      {
        assert subNodes[p] == old(subNodes[p]) && subNodes[p] in old(Children());
      }
    }

    twostate lemma StandsLiteral(new node: RouteNode, new r: Route)
      requires old(Stands()) && Kinds() && OthersStand(node, r)
      requires handlerGenerator == old(handlerGenerator) && r.pattern != [] && r.pattern[0].Literal?
      requires wildCard == old(wildCard) && variables == old(variables) && subNodes == old(subNodes)[r.pattern[0].name := node]
      requires node.routes == (if r.pattern[0].name in old(subNodes) then old(subNodes[r.pattern[0].name].routes) else []) + [r.Tail()]
      ensures Stands()
    {
      hide HandlerStands, WildCardStands, PathsStand, VariablesStand, OthersStand;
      assert r.pattern[0].name in subNodes && node.kind == RoutePath(r.pattern[0].name);
      HandlerKept(r, node);
      WildCardKept(r, node);
      VariablesKept(r, node);
      PathAdded(node, r);
    }

    /** Whatever the kind of the child. */
    twostate lemma StandsAgain(new node: RouteNode?, new r: Route)
      requires old(Stands()) && Kinds() && OthersStand(node, r) && handlerGenerator == old(handlerGenerator) && r.pattern != []
      requires match r.pattern[0] {
                 case Dropped => node == null && wildCard == old(wildCard) && variables == old(variables) && subNodes == old(subNodes)
                 case Wild => node != null && wildCard == node && variables == old(variables) && subNodes == old(subNodes)
                              && node.routes == (if old(wildCard) == null then [] else old(wildCard.routes)) + [r.Tail()]
                 case Variable(n) => node != null && variables == old(variables) + [node] && node.kind == RouteVariable(n)
                                     && wildCard == old(wildCard) && subNodes == old(subNodes) && fresh(node) && node.routes == [r.Tail()]
                 case Literal(n) => node != null && subNodes == old(subNodes)[n := node]
                                    && wildCard == old(wildCard) && variables == old(variables)
                                    && node.routes == (if n in old(subNodes) then old(subNodes[n].routes) else []) + [r.Tail()]
               }
      ensures Stands()
    {
      hide Stands, Kinds, OthersStand;
      match r.pattern[0] {
        case Dropped => StandsDropped(r);
        case Wild => StandsWild(node, r);
        case Variable(_) => StandsVariable(node, r);
        case Literal(_) => StandsLiteral(node, r);
      }
    }

    method AddPathSegment(component: Name, g: seq<Name>, h: Handler, ghost id: nat)
      requires Valid()
      modifies Repr
      ensures Valid() && fresh(Repr - old(Repr)) && old(Repr) <= Repr
      ensures routes == old(routes) + [Route(if component == "" then [Dropped] else [Parse(component)] + Pattern(g), h, id)]
      decreases |g|, 3
    {
      hide Tree, Kinds, Pattern, Stands, Linked, Parse;
      ChildKinds();
      ghost var r := Route(if component == "" then [Dropped] else [Parse(component)] + Pattern(g), h, id);
      assert r.pattern[1..] == if component == "" then [] else Pattern(g);
      var node := Extend(component, g, h, id);
      routes := routes + [r];
      ChildKinds();
      StandsAgain(node, r);
    }

    /** The child the component leads to takes the rest; the others stay. */
    method Extend(component: Name, g: seq<Name>, h: Handler, ghost id: nat) returns (node: RouteNode?)
      requires Linked()
      modifies Repr
      ensures Linked() && fresh(Repr - old(Repr)) && old(Repr) <= Repr
      ensures handlerGenerator == old(handlerGenerator) && routes == old(routes)
      ensures node != null ==> node in Children()
      ensures forall c :: c in old(Children()) && c != node ==> c.routes == old(c.routes)
      ensures var tail := Route(Pattern(g), h, id);
              match Parse(component) {
                case Dropped => node == null && wildCard == old(wildCard) && variables == old(variables) && subNodes == old(subNodes)
                case Wild => node != null && wildCard == node && variables == old(variables) && subNodes == old(subNodes)
                             && node.routes == (if old(wildCard) == null then [] else old(wildCard.routes)) + [tail]
                case Variable(n) => node != null && variables == old(variables) + [node] && node.kind == RouteVariable(n)
                                    && wildCard == old(wildCard) && subNodes == old(subNodes) && fresh(node) && node.routes == [tail]
                case Literal(n) => node != null && subNodes == old(subNodes)[n := node]
                                   && wildCard == old(wildCard) && variables == old(variables)
                                   && node.routes == (if n in old(subNodes) then old(subNodes[n].routes) else []) + [tail]
              }
      decreases |g|, 2
    {
      hide Tree, Kinds, Pattern, Stands, Linked, Parse;
      ChildKinds();
      node := NodeForComponent(component);
      ChildKinds();
      if node != null { Grow(node, g, h, id); }
    }

    method SetHandler(h: Handler, ghost id: nat)
      requires Valid()
      modifies this`handlerGenerator, this`routes
      ensures Valid() && routes == old(routes) + [Route([], h, id)]
    {
      hide Linked, WildCardStands, PathsStand, VariablesStand, Tails, WithVariable;
      ChildKinds();
      ghost var r := Route([], h, id);
      AddRoute(routes, r);
      handlerGenerator := Some(h);
      routes := routes + [r];
      WildCardKept(r, null);
      PathsKept(r, null);
      VariablesKept(r, null);
    }

    method AddPathSegments(g: seq<Name>, h: Handler, ghost id: nat)
      requires Valid()
      modifies Repr
      ensures Valid() && fresh(Repr - old(Repr)) && old(Repr) <= Repr
      ensures routes == old(routes) + [Route(Pattern(g), h, id)]
      decreases |g|, 0
    {
      hide Linked, Stands, Valid;
      if g != [] {
        if g[0] == SLASH {
          AddPathSegments(g[1..], h, id);
        } else {
          AddPathSegment(g[0], g[1..], h, id);
        }
      } else {
        SetHandler(h, id);
      }
    }

    // ---- lookup

    method SuccessfulRoute(currentComponent: Name, handler: Handler, webRequest: WebRequest) returns (h: Handler)
      modifies webRequest`urlVariables
      ensures h == handler
      ensures webRequest.urlVariables == Owned(kind, webRequest.decode, old(webRequest.urlVariables), currentComponent)
    {
      if kind.RouteVariable? {
        var decodedComponent := webRequest.decode(currentComponent);
        if decodedComponent.Some? {
          webRequest.urlVariables := webRequest.urlVariables[kind.name := decodedComponent.value];
        } else {
          webRequest.urlVariables := webRequest.urlVariables[kind.name := currentComponent];
        }
      }
      h := handler;
    }

    /** The tree is not part of the request. */
    lemma Apart(webRequest: WebRequest)
      ensures forall o: RouteNode :: o in Repr ==> o as object != webRequest
    {
    }

    /** One child, and the writes that follow its success. */
    method Try(node: RouteNode, p: Name, rest: seq<Name>, currentComponent: Name, webRequest: WebRequest) returns (h: Option<Handler>)
      requires Valid() && node in Children()
      modifies webRequest`urlVariables
      ensures Valid()
      ensures match Search(node.routes, rest) {
                case None => h == None && webRequest.urlVariables == old(webRequest.urlVariables)
                case Some(hit) =>
                  && h == Some(hit.handler)
                  && var m := Written(webRequest.decode, old(webRequest.urlVariables), hit.bindings);
                     webRequest.urlVariables == Owned(kind, webRequest.decode, Owned(node.kind, webRequest.decode, m, p), currentComponent)
              }
      decreases Repr, 0
    {
      hide Stands, Search, Written, Owned;
      Apart(webRequest);
      ghost var decode, before, hit := webRequest.decode, webRequest.urlVariables, Search(node.routes, rest);
      var found := node.FindHandler(p, rest, webRequest);
      if found.Some? {
        WrittenTwice(node.kind, decode, before, hit.value.bindings, p);
        var inner := node.SuccessfulRoute(p, found.value, webRequest);
        var outer := SuccessfulRoute(currentComponent, inner, webRequest);
        h := Some(outer);
      } else {
        h := None;
      }
    }

    /** A hit through a child: the hit's bindings are written, then the node's own. */
    ghost predicate Through(webRequest: WebRequest, before: map<Name, Name>, hit: Option<Hit>, currentComponent: Name, h: Option<Handler>)
      reads webRequest`urlVariables
    {
      match hit
      case None => h == None && webRequest.urlVariables == before
      case Some(hit) =>
        && h == Some(hit.handler)
        && webRequest.urlVariables == Owned(kind, webRequest.decode, Written(webRequest.decode, before, hit.bindings), currentComponent)
    }

    /** What a lookup comes to: as through a child, or nothing written where the path ends. */
    ghost predicate Bound(webRequest: WebRequest, before: map<Name, Name>, hit: Option<Hit>, currentComponent: Name, h: Option<Handler>)
      reads webRequest`urlVariables
    {
      || Through(webRequest, before, hit, currentComponent, h)
      || (hit.Some? && hit.value.bindings == [] && h == Some(hit.value.handler) && webRequest.urlVariables == before)
    }

    method TryVariables(p: Name, rest: seq<Name>, currentComponent: Name, webRequest: WebRequest) returns (h: Option<Handler>)
      requires Valid()
      modifies webRequest`urlVariables
      ensures Valid()
      ensures Through(webRequest, old(webRequest.urlVariables), SearchVariables(WithVariable(routes), p, rest, Longest(routes)), currentComponent, h)
      decreases Repr, 1
    {
      hide Linked, Tree, Kinds, Search, Written, SearchVariables, Longest, WithVariable, Owned, HandlerStands, WildCardStands, PathsStand;
      Apart(webRequest);
      ghost var vs, n := WithVariable(routes), Longest(routes);
      assert vs[0..] == vs;
      for i := 0 to |variables|
        invariant Valid() && vs == WithVariable(routes) && n == Longest(routes) && |variables| == |vs|
        invariant webRequest.urlVariables == old(webRequest.urlVariables)
        invariant forall v :: v in vs[i..] ==> StartsVariable(v) && |v.pattern| <= n
        invariant SearchVariables(vs, p, rest, n) == SearchVariables(vs[i..], p, rest, n)
      {
        SearchFrom(vs, i, p, rest, n);
        h := Try(variables[i], p, rest, currentComponent, webRequest);
        if h.Some? {
          OneMore(webRequest.decode, old(webRequest.urlVariables), vs[i], p, Search([vs[i].Tail()], rest).value.bindings);
          return;
        }
      }
      SearchFrom(vs, |vs|, p, rest, n);
      h := None;
    }

    method TryTail(node: RouteNode?, seg: Segment, p: Name, rest: seq<Name>, currentComponent: Name, webRequest: WebRequest)
      returns (h: Option<Handler>)
      requires Valid() && (node == null ==> Tails(routes, seg) == [])
      requires node != null ==> node in Children() && !node.kind.RouteVariable? && node.routes == Tails(routes, seg)
      modifies webRequest`urlVariables
      ensures Valid()
      ensures Through(webRequest, old(webRequest.urlVariables), SearchTails(routes, seg, rest), currentComponent, h)
      decreases Repr, 1
    {
      hide Linked, Stands, Search, Written, Tails, Longest;
      SearchNothing(rest);
      h := None;
      if node != null {
        h := Try(node, p, rest, currentComponent, webRequest);
      }
    }

    lemma ChildrenStand(p: Name)
      requires Valid()
      ensures p in subNodes ==> subNodes[p] in Children() && !subNodes[p].kind.RouteVariable? && subNodes[p].routes == Tails(routes, Literal(p))
      ensures p !in subNodes ==> Tails(routes, Literal(p)) == []
      ensures wildCard != null ==> wildCard in Children() && !wildCard.kind.RouteVariable? && wildCard.routes == Tails(routes, Wild)
      ensures wildCard == null ==> Tails(routes, Wild) == []
      ensures handlerGenerator == if LastHere(routes).Some? then Some(LastHere(routes).value.handler) else None
    {
      hide Tree, Linked, Tails, LastHere, WithVariable;
      ChildKinds();
    }

    /** A root has nothing of its own to write. */
    lemma BoundAtRoot(webRequest: WebRequest, before: map<Name, Name>, hit: Option<Hit>, h: Option<Handler>)
      requires !kind.RouteVariable? && Bound(webRequest, before, hit, "", h)
      ensures Answers(hit, webRequest.decode, before, webRequest.urlVariables, h)
    {
    }

    method FindHandler(currentComponent: Name, generator: seq<Name>, webRequest: WebRequest) returns (h: Option<Handler>)
      requires Valid()
      modifies webRequest`urlVariables
      ensures Valid()
      ensures Bound(webRequest, old(webRequest.urlVariables), Search(routes, generator), currentComponent, h)
      decreases Repr, 2
    {
      hide Valid, Linked, Stands, SearchTails, SearchVariables, Written, Tails, Longest, WithVariable, LastHere;
      if generator != [] && generator[0] != SLASH {
        var p, m := generator[0], generator[1..];
        ChildrenStand(p);
        h := TryVariables(p, m, currentComponent, webRequest);
        if h.Some? {
          return;
        }
        ChildrenStand(p);
        h := TryTail(if p in subNodes then subNodes[p] else null, Literal(p), p, m, currentComponent, webRequest);
        if h.Some? {
          return;
        }
        ChildrenStand(p);
        h := TryTail(wildCard, Wild, p, m, currentComponent, webRequest);
      } else {
        ChildrenStand("");
        if handlerGenerator.Some? {
          return handlerGenerator;
        }
        h := TryTail(wildCard, Wild, "", if generator == [] then [] else generator[1..], currentComponent, webRequest);
      }
    }
  }

  lemma NewValue(m: map<Name, RouteNode>, k: Name, r: RouteNode)
    requires k !in m
    ensures m[k := r].Values == m.Values + {r}
  {
    var m' := m[k := r];
    assert forall p :: p in m ==> p in m' && m'[p] == m[p];
    assert k in m' && m'[k] == r;
  }

  /** Ids below n, in order. */
  predicate Numbered(routes: seq<Route>, n: nat) {
    InOrder(routes) && forall i :: 0 <= i < |routes| ==> routes[i].id < n
  }

  /** A root for any request method, and one for each method that has routes of its own. */
  class RouteMap {
    const root: RouteNode
    var methodRoots: map<Name, RouteNode>
    ghost var registered: nat
    ghost var Repr: set<RouteNode>

    ghost function Roots(): set<RouteNode>
      reads `methodRoots
    {
      {root} + methodRoots.Values
    }

    ghost predicate Apart()
      reads `methodRoots, `Repr, Repr
    {
      && (forall r :: r in Roots() ==> r in Repr && r.Repr <= Repr && !r.kind.RouteVariable?)
      && (forall r, q :: r in Roots() && q in Roots() && r != q ==> r.Repr !! q.Repr)
      && (forall m :: m in methodRoots ==> methodRoots[m] != root)
      && (forall m, k :: m in methodRoots && k in methodRoots && m != k ==> methodRoots[m] != methodRoots[k])
    }

    ghost predicate Valid()
      reads this, Repr
    {
      Apart() && forall r :: r in Roots() ==> r.Valid() && Numbered(r.routes, registered)
    }

    /** The routes for one request method; those for any are the root's. */
    ghost function RoutesFor(m: Name): seq<Route>
      reads `methodRoots, methodRoots.Values
    {
      if m in methodRoots then methodRoots[m].routes else []
    }

    constructor ()
      ensures Valid() && root.routes == [] && methodRoots == map[]
      ensures fresh(Repr)
    {
      hide RouteNode.Valid;
      var r := new RouteNode(RouteRoot);
      root, methodRoots, registered, Repr := r, map[], 0, {r};
    }

    lemma RootsHold(m: Name)
      requires Valid()
      ensures root in Repr && root.Valid() && root.Repr <= Repr && !root.kind.RouteVariable? && Numbered(root.routes, registered)
      ensures m in methodRoots ==>
                && methodRoots[m] in Repr && methodRoots[m].Valid() && methodRoots[m].Repr <= Repr && !methodRoots[m].kind.RouteVariable?
                && Numbered(methodRoots[m].routes, registered)
    {
      assert m in methodRoots ==> methodRoots[m] in Roots();
    }

    /** Registers a path with one root; the others are as they were. */
    method Register(r: RouteNode, components: seq<Name>, h: Handler)
      requires Valid() && r in Roots()
      modifies this`registered, this`Repr, r.Repr
      ensures Valid() && fresh(Repr - old(Repr)) && registered == old(registered) + 1
      ensures r.routes == old(r.routes) + [Route(Pattern(components), h, old(registered))]
      ensures forall q :: q in Roots() && q != r ==> q.routes == old(q.routes)
    {
      hide Pattern, RouteNode.Valid;
      ghost var roots := Roots();
      RootsAllocated();
      r.AddPathSegments(components, h, registered);
      forall q | q in roots && q != r
        ensures q.Valid() && q.routes == old(q.routes) && q.Repr == old(q.Repr)
      {
      }
      Repr := Repr + r.Repr;
      registered := registered + 1;
    }

    lemma RootsAllocated()
      requires Valid()
      ensures forall q :: q in Roots() ==> q in q.Repr && q.Valid()
    {
    }

    method Set(components: seq<Name>, h: Handler)
      requires Valid()
      modifies this, Repr
      ensures Valid() && fresh(Repr - old(Repr)) && methodRoots == old(methodRoots) && registered == old(registered) + 1
      ensures root.routes == old(root.routes) + [Route(Pattern(components), h, old(registered))]
      ensures forall m :: RoutesFor(m) == old(RoutesFor(m))
    {
      hide Pattern, RouteNode.Valid, Valid;
      RootsHold("");
      MethodsApart();
      Register(root, components, h);
    }

    lemma MethodsApart()
      requires Valid()
      ensures root in Roots() && forall m :: m in methodRoots ==> methodRoots[m] in Roots() && methodRoots[m] != root
      ensures forall m, k :: m in methodRoots && k in methodRoots && m != k ==> methodRoots[m] != methodRoots[k]
    {
    }

    method AddRoot(m: Name) returns (r: RouteNode)
      requires Valid() && m !in methodRoots
      modifies this`methodRoots, this`Repr
      ensures Valid() && fresh(Repr - old(Repr)) && registered == old(registered)
      ensures methodRoots == old(methodRoots)[m := r] && r.routes == [] && fresh(r) && Repr == old(Repr) + {r}
    {
      hide RouteNode.Valid;
      r := new RouteNode(RouteRoot);
      NewValue(methodRoots, m, r);
      methodRoots := methodRoots[m := r];
      Repr := Repr + {r};
      assert Roots() == old(Roots()) + {r};
    }

    method SetForMethod(m: Name, components: seq<Name>, h: Handler)
      requires Valid()
      modifies this, Repr
      ensures Valid() && fresh(Repr - old(Repr)) && registered == old(registered) + 1
      ensures RoutesFor(m) == old(RoutesFor(m)) + [Route(Pattern(components), h, old(registered))]
      ensures root.routes == old(root.routes) && forall k :: k != m ==> RoutesFor(k) == old(RoutesFor(k))
    {
      hide Pattern, RouteNode.Valid, Valid;
      MethodsApart();
      if m !in methodRoots {
        var _ := AddRoot(m);
      }
      MethodsApart();
      RootsHold(m);
      Register(methodRoots[m], components, h);
    }

    /** Looks among the routes of the request's method, then among those for any method. */
    method Get(m: Name, components: seq<Name>, webRequest: WebRequest) returns (h: Option<Handler>)
      requires Valid()
      modifies webRequest`urlVariables
      ensures var rest := if components == [] then [] else components[1..];
              var own, common := Search(RoutesFor(m), rest), Search(root.routes, rest);
              && Finds(RoutesFor(m), rest, own) && Finds(root.routes, rest, common)
              && Answers(if own.Some? then own else common, webRequest.decode, old(webRequest.urlVariables), webRequest.urlVariables, h)
      ensures var rest := if components == [] then [] else components[1..];
              Serves(RoutesFor(m), root.routes, rest, webRequest.decode, old(webRequest.urlVariables), webRequest.urlVariables, h)
    {
      hide Valid, RouteNode.Valid, Search, Written, Finds, Answers, Serves;
      var g := if components == [] then [] else components[1..];
      RootsHold(m);
      Found(RoutesFor(m), g);
      Found(root.routes, g);
      SearchNothing(g);
      h := None;
      if m in methodRoots {
        ghost var before := webRequest.urlVariables;
        h := methodRoots[m].FindHandler("", g, webRequest);
        methodRoots[m].BoundAtRoot(webRequest, before, Search(methodRoots[m].routes, g), h);
        if h.Some? {
          AnswersServe(RoutesFor(m), root.routes, g, webRequest.decode, before, webRequest.urlVariables, h);
          return;
        }
      }
      root.Apart(webRequest);
      h := root.FindHandler("", g, webRequest);
      root.BoundAtRoot(webRequest, old(webRequest.urlVariables), Search(root.routes, g), h);
      AnswersServe(RoutesFor(m), root.routes, g, webRequest.decode, old(webRequest.urlVariables), webRequest.urlVariables, h);
    }
  }

  /** A hit's handler with its bindings written; no hit, and nothing is written. */
  predicate Answers(hit: Option<Hit>, decode: Name -> Option<Name>, before: map<Name, Name>, after: map<Name, Name>, h: Option<Handler>) {
    match hit
    case None => h == None && after == before
    case Some(hit) => h == Some(hit.handler) && after == Written(decode, before, hit.bindings)
  }

  // ---- what that means for the request

  /** The first place of a variable in a path: the outermost of this name. */
  predicate Outermost(pattern: seq<Segment>, i: int) {
    0 <= i < |pattern| && pattern[i].Variable? && forall j :: 0 <= j < i ==> pattern[j] != pattern[i]
  }

  /**
   * Each variable of the path holds the component at its outermost place, decoded if it can be
   * decoded and as it is if not; everything else is as it was.
   */
  ghost predicate Binds(pattern: seq<Segment>, components: seq<Name>, decode: Name -> Option<Name>,
                        before: map<Name, Name>, after: map<Name, Name>) {
    && (forall i :: Outermost(pattern, i) ==>
          && i < |components| && pattern[i].name in after
          && after[pattern[i].name] == match decode(components[i]) { case Some(y) => y case None => components[i] })
    && (forall name :: Variable(name) !in pattern ==>
          (name in after <==> name in before) && (name in after ==> after[name] == before[name]))
  }

  /** The winner among these routes is called, with its variables set. */
  ghost predicate Calls(routes: seq<Route>, components: seq<Name>, decode: Name -> Option<Name>,
                        before: map<Name, Name>, after: map<Name, Name>, h: Option<Handler>) {
    exists best :: IsBest(routes, components, best) && h == Some(best.handler) && Binds(best.pattern, components, decode, before, after)
  }

  ghost predicate AnyMatch(routes: seq<Route>, components: seq<Name>) {
    exists r :: r in routes && Matches(r.pattern, components)
  }

  /** The method's own routes, then those for any method; and nothing, if none of them matches. */
  ghost predicate Serves(own: seq<Route>, common: seq<Route>, components: seq<Name>, decode: Name -> Option<Name>,
                         before: map<Name, Name>, after: map<Name, Name>, h: Option<Handler>) {
    if AnyMatch(own, components) then Calls(own, components, decode, before, after, h)
    else if AnyMatch(common, components) then Calls(common, components, decode, before, after, h)
    else h == None && after == before
  }

  /** What a matching path writes. */
  lemma {:induction false} WritesVariables(pattern: seq<Segment>, components: seq<Name>, decode: Name -> Option<Name>, before: map<Name, Name>)
    requires Matches(pattern, components)
    ensures Binds(pattern, components, decode, before, Written(decode, before, BindingsOf(pattern, components)))
    decreases |pattern|
  {
    if pattern != [] {
      var behind := if components == [] then [] else components[1..];
      WritesVariables(pattern[1..], behind, decode, before);
      var inner := Written(decode, before, BindingsOf(pattern[1..], behind));
      if pattern[0].Variable? {
        assert BindingsOf(pattern, components) == [Binding(pattern[0].name, components[0])] + BindingsOf(pattern[1..], behind);
        assert BindingsOf(pattern, components)[1..] == BindingsOf(pattern[1..], behind);
      } else {
        assert BindingsOf(pattern, components) == BindingsOf(pattern[1..], behind);
      }
      BindsOneMore(pattern, components, decode, before, inner, Written(decode, before, BindingsOf(pattern, components)));
    }
  }

  lemma BindsOneMore(pattern: seq<Segment>, components: seq<Name>, decode: Name -> Option<Name>,
                     before: map<Name, Name>, inner: map<Name, Name>, after: map<Name, Name>)
    requires pattern != [] && Binds(pattern[1..], if components == [] then [] else components[1..], decode, before, inner)
    requires if pattern[0].Variable? then components != [] && after == inner[pattern[0].name := Stored(decode, components[0])] else after == inner
    ensures Binds(pattern, components, decode, before, after)
  {
    forall i | Outermost(pattern, i)
      ensures i < |components| && pattern[i].name in after
      ensures after[pattern[i].name] == match decode(components[i]) { case Some(y) => y case None => components[i] }
    {
      if i > 0 {
        assert Outermost(pattern[1..], i - 1) by {
          assert forall j :: 0 <= j < i - 1 ==> pattern[1..][j] == pattern[j + 1];
        }
        assert pattern[1..][i - 1] == pattern[i] && pattern[0] != pattern[i];
      }
    }
    forall name | Variable(name) !in pattern
      ensures (name in after <==> name in before) && (name in after ==> after[name] == before[name])
    {
      assert Variable(name) !in pattern[1..];
    }
  }

  /** A search's answer, in terms of the routes alone. */
  lemma AnswersServe(own: seq<Route>, common: seq<Route>, components: seq<Name>, decode: Name -> Option<Name>,
                     before: map<Name, Name>, after: map<Name, Name>, h: Option<Handler>)
    requires InOrder(own) && InOrder(common)
    requires var a, b := Search(own, components), Search(common, components); Answers(if a.Some? then a else b, decode, before, after, h)
    ensures Serves(own, common, components, decode, before, after, h)
  {
    hide Search, Matches, Wins, Binds, Written, BindingsOf, InOrder, Longest;
    Found(own, components);
    Found(common, components);
    var routes := if Search(own, components).Some? then own else common;
    if Search(routes, components).Some? {
      var hit := Search(routes, components).value;
      var best :| IsBest(routes, components, best) && HitIs(best, hit, BindingsOf(best.pattern, components));
      WritesVariables(best.pattern, components, decode, before);
      assert AnyMatch(routes, components);
    }
  }
}
