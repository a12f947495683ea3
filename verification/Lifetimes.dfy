/** Lifetime rewriting in the macro: the syntax visitors with their binder-scope stack, the choice of
    fresh names, and the where-predicates kept for lifetime-erased code. */
module Lifetimes {
  /** A lifetime identifier, without its quote. */
  datatype Name = Name(text: string)

  /** Type syntax as the visitors see it. `Bind` is a trait bound or a bare function type with a
      `for<..>` list; its children, parameter bounds included, are visited inside the binder. */
  datatype Syntax =
    | Word(text: string)
    | Life(name: Name)
    | Tree(kids: seq<Syntax>)
    | Bind(names: seq<Name>, kids: seq<Syntax>)

  const STATIC := Name("static")

  /** `EraseSourceLifetimes` and `DeclaredLifetimeRebinder`. */
  datatype Action = Erase | Rebind(sources: set<Name>, to: Name)

  /** What a free lifetime becomes. */
  function Target(a: Action, x: Name): Name {
    if a.Erase? then STATIC else if x in a.sources then a.to else x
  }

  function Kids(t: Syntax): (kids: seq<Syntax>)
    ensures forall i :: 0 <= i < |kids| ==> kids[i] < t
  {
    match t case Tree(kids) => kids case Bind(_, kids) => kids case _ => []
  }

  function SetOf(names: seq<Name>): set<Name> { set x | x in names }

  /** The names bound inside `t` when `scope` is bound around it. */
  function ScopeIn(t: Syntax, scope: set<Name>): set<Name> {
    if t.Bind? then scope + SetOf(t.names) else scope
  }

  /** Substitution on free lifetimes. */
  function Subst(t: Syntax, a: Action, scope: set<Name>): (r: Syntax)
    ensures |Kids(r)| == |Kids(t)| && ScopeIn(r, scope) == ScopeIn(t, scope)
    ensures forall i :: 0 <= i < |Kids(t)| ==> Kids(r)[i] == Subst(Kids(t)[i], a, ScopeIn(t, scope))
    decreases t
  {
    match t
    case Word(_) => t
    case Life(x) => Life(if x in scope then x else Target(a, x))
    case Tree(kids) => Tree(seq(|kids|, i requires 0 <= i < |kids| => Subst(kids[i], a, scope)))
    case Bind(names, kids) =>
      Bind(names, seq(|kids|, i requires 0 <= i < |kids| => Subst(kids[i], a, scope + SetOf(names))))
  }

  // ----- the visitors -----

  function Scope(stack: seq<set<Name>>): (s: set<Name>)
    ensures forall x :: x in s <==> exists k :: 0 <= k < |stack| && x in stack[k]
  {
    if stack == [] then {} else Scope(stack[..|stack| - 1]) + stack[|stack| - 1]
  }

  lemma PushScope(stack: seq<set<Name>>, names: set<Name>)
    ensures Scope(stack + [names]) == Scope(stack) + names
  {
    assert (stack + [names])[..|stack|] == stack;
  }

  /** The rewriting visitor. Its stack holds the names of every enclosing binder. */
  class Rewriter {
    const action: Action
    var bound: seq<set<Name>>

    constructor (a: Action)
      ensures action == a && bound == []
    {
      action, bound := a, [];
    }

    method VisitLifetime(x: Name) returns (r: Name)
      ensures r == if x in Scope(bound) then x else Target(action, x)
    {
      var isBound := exists k :: 0 <= k < |bound| && x in bound[k];
      r := x;
      if action.Erase? {
        if x != STATIC && !isBound { r := STATIC; }
      } else if x in action.sources && !isBound {
        r := action.to;
      }
    }

    /** The visit restores the stack it found, and rewrites free lifetimes only. */
    method Visit(t: Syntax) returns (r: Syntax)
      modifies this
      ensures bound == old(bound) && r == Subst(t, action, Scope(bound))
      decreases t, 1
    {
      hide Scope;
      match t {
        case Word(_) => r := t;
        case Life(x) =>
          var y := VisitLifetime(x);
          r := Life(y);
        case Tree(_) =>
          var out := VisitKids(t);
          r := Tree(out);
        case Bind(names, _) =>
          bound := bound + [SetOf(names)];
          PushScope(old(bound), SetOf(names));
          var binder := VisitBinder(names);
          var out := VisitKids(t);
          bound := bound[..|bound| - 1];
          r := Bind(binder, out);
      }
      assert Kids(r) == Kids(Subst(t, action, Scope(bound)));
    }

    method VisitKids(t: Syntax) returns (out: seq<Syntax>)
      modifies this
      ensures bound == old(bound) && |out| == |Kids(t)|
      ensures forall k :: 0 <= k < |out| ==> out[k] == Subst(Kids(t)[k], action, Scope(bound))
      decreases t, 0
    {
      hide Scope, Subst, Kids, ScopeIn;
      out := [];
      for i := 0 to |Kids(t)|
        invariant bound == old(bound) && |out| == i
        invariant forall k :: 0 <= k < i ==> out[k] == Subst(Kids(t)[k], action, Scope(bound))
      {
        var kid := Visit(Kids(t)[i]);
        out := out + [kid];
      }
    }

    /** The binder's own parameters are visited too; they are bound, so they stay. */
    method VisitBinder(names: seq<Name>) returns (r: seq<Name>)
      requires bound != [] && bound[|bound| - 1] == SetOf(names)
      ensures r == names
    {
      r := [];
      for i := 0 to |names|
        invariant r == names[..i]
      {
        assert names[i] in bound[|bound| - 1];
        var y := VisitLifetime(names[i]);
        r := r + [y];
      }
    }
  }

  // ----- capture -----

  /** Every lifetime occurrence in order, with whether it is free. Independent of any rewriting. */
  function Occurrences(t: Syntax, scope: set<Name>): seq<(Name, bool)>
    decreases t, |Kids(t)| + 1
  {
    if t.Life? then [(t.name, t.name !in scope)] else OccurrencesIn(t, scope, |Kids(t)|)
  }

  function OccurrencesIn(t: Syntax, scope: set<Name>, n: nat): seq<(Name, bool)>
    requires n <= |Kids(t)|
    decreases t, n
  {
    if n == 0 then [] else OccurrencesIn(t, scope, n - 1) + Occurrences(Kids(t)[n - 1], ScopeIn(t, scope))
  }

  /** Each free occurrence takes its target and stays free; each bound one is left alone. */
  function Retarget(occ: seq<(Name, bool)>, a: Action): (r: seq<(Name, bool)>)
    ensures |r| == |occ|
  {
    seq(|occ|, i requires 0 <= i < |occ| => if occ[i].1 then (Target(a, occ[i].0), true) else occ[i])
  }

  /** Some free occurrence would be renamed under a binder of its new name. */
  predicate Captured(t: Syntax, a: Action, scope: set<Name>) {
    if t.Life? then t.name !in scope && Target(a, t.name) in scope
    else exists i :: 0 <= i < |Kids(t)| && Captured(Kids(t)[i], a, ScopeIn(t, scope))
  }

  /** Rewriting moves every free occurrence to its target, keeps it free and touches no bound one,
      exactly when nothing is captured. */
  lemma {:induction false} SubstOccurrences(t: Syntax, a: Action, scope: set<Name>)
    ensures |Occurrences(Subst(t, a, scope), scope)| == |Occurrences(t, scope)|
    ensures !Captured(t, a, scope) <==> Occurrences(Subst(t, a, scope), scope) == Retarget(Occurrences(t, scope), a)
    decreases t, |Kids(t)| + 1
  {
    if t.Life? {
      var o, e := Occurrences(Subst(t, a, scope), scope), Retarget(Occurrences(t, scope), a);
      assert |o| == 1 && o == e <==> o[0] == e[0];
    } else {
      SubstOccurrencesIn(t, a, scope, |Kids(t)|);
    }
  }

  lemma {:induction false} SubstOccurrencesIn(t: Syntax, a: Action, scope: set<Name>, n: nat)
    requires n <= |Kids(t)| && !t.Life?
    ensures |OccurrencesIn(Subst(t, a, scope), scope, n)| == |OccurrencesIn(t, scope, n)|
    ensures (forall i :: 0 <= i < n ==> !Captured(Kids(t)[i], a, ScopeIn(t, scope))) <==>
      OccurrencesIn(Subst(t, a, scope), scope, n) == Retarget(OccurrencesIn(t, scope, n), a)
    decreases t, n
  {
    hide Subst, Captured, Retarget, Occurrences, OccurrencesIn, Kids, ScopeIn;
    OccurrencesStep(t, scope, n);
    OccurrencesStep(Subst(t, a, scope), scope, n);
    if n == 0 {
      assert Retarget([], a) == [];
    } else {
      var kid, inner := Kids(t)[n - 1], ScopeIn(t, scope);
      SubstOccurrencesIn(t, a, scope, n - 1);
      SubstOccurrences(kid, a, inner);
      var x, y := OccurrencesIn(t, scope, n - 1), Occurrences(kid, inner);
      RetargetConcat(x, y, a);
      var x', y' := OccurrencesIn(Subst(t, a, scope), scope, n - 1), Occurrences(Subst(kid, a, inner), inner);
      Parts(x', y', Retarget(x, a), Retarget(y, a));
    }
  }

  lemma OccurrencesStep(t: Syntax, scope: set<Name>, n: nat)
    requires n <= |Kids(t)|
    ensures OccurrencesIn(t, scope, n) ==
      if n == 0 then [] else OccurrencesIn(t, scope, n - 1) + Occurrences(Kids(t)[n - 1], ScopeIn(t, scope))
  {}

  lemma RetargetConcat(x: seq<(Name, bool)>, y: seq<(Name, bool)>, a: Action)
    ensures Retarget(x + y, a) == Retarget(x, a) + Retarget(y, a)
  {}

  lemma Parts<T>(a: seq<T>, b: seq<T>, c: seq<T>, d: seq<T>)
    requires |a| == |c|
    ensures a + b == c + d <==> a == c && b == d
  {
    if a + b == c + d {
      assert a == (a + b)[..|a|] && c == (c + d)[..|a|];
      assert b == (a + b)[|a|..] && d == (c + d)[|a|..];
    }
  }

  /** Erasing after rebinding is erasing, exactly when the rebinding captures nothing. */
  lemma {:induction false} EraseAfterRebind(t: Syntax, sources: set<Name>, to: Name, scope: set<Name>)
    requires to != STATIC
    ensures Subst(Subst(t, Rebind(sources, to), scope), Erase, scope) == Subst(t, Erase, scope) <==>
      !Captured(t, Rebind(sources, to), scope)
    decreases t
  {
    var a := Rebind(sources, to);
    var kids, inner := Kids(t), ScopeIn(t, scope);
    var left, right := Subst(Subst(t, a, scope), Erase, scope), Subst(t, Erase, scope);
    forall i | 0 <= i < |kids|
      ensures Kids(left)[i] == Kids(right)[i] <==> !Captured(kids[i], a, inner)
    {
      EraseAfterRebind(kids[i], sources, to, inner);
    }
    if !t.Life? { assert left == right <==> Kids(left) == Kids(right); }
  }

  /** Every name written in the syntax, binders included. */
  function Names(t: Syntax): set<Name>
    decreases t
  {
    match t
    case Word(_) => {}
    case Life(x) => {x}
    case Tree(kids) => set i, x | 0 <= i < |kids| && x in Names(kids[i]) :: x
    case Bind(names, kids) => SetOf(names) + set i, x | 0 <= i < |kids| && x in Names(kids[i]) :: x
  }

  /** A name that is not written in the syntax is never captured. */
  lemma {:induction false} FreshIsSafe(t: Syntax, sources: set<Name>, to: Name, scope: set<Name>)
    requires to !in Names(t) && to !in scope
    ensures !Captured(t, Rebind(sources, to), scope)
    decreases t
  {
    forall i | 0 <= i < |Kids(t)| ensures !Captured(Kids(t)[i], Rebind(sources, to), ScopeIn(t, scope)) {
      assert forall x :: x in Names(Kids(t)[i]) ==> x in Names(t);
      FreshIsSafe(Kids(t)[i], sources, to, ScopeIn(t, scope));
    }
  }

  /** The occurrences `after` are those `before` with every free source lifetime renamed `to`, still free. */
  predicate Moved(before: seq<(Name, bool)>, after: seq<(Name, bool)>, sources: set<Name>, to: Name) {
    && |after| == |before|
    && forall i :: 0 <= i < |before| ==>
         after[i] == if before[i].1 && before[i].0 in sources then (to, true) else before[i]
  }

  /** Rebinding to a fresh name: every free source lifetime becomes that name and stays free, nothing
      else moves, and erasing afterwards is erasing directly. */
  lemma FreshRebind(t: Syntax, sources: set<Name>, to: Name)
    requires to !in Names(t) && to != STATIC
    ensures Moved(Occurrences(t, {}), Occurrences(Subst(t, Rebind(sources, to), {}), {}), sources, to)
    ensures Subst(Subst(t, Rebind(sources, to), {}), Erase, {}) == Subst(t, Erase, {})
  {
    FreshIsSafe(t, sources, to, {});
    SubstOccurrences(t, Rebind(sources, to), {});
    EraseAfterRebind(t, sources, to, {});
  }

  /** Erasing leaves no lifetime free but `static`. */
  lemma {:induction false} ErasedFree(t: Syntax, scope: set<Name>, x: Name)
    requires (x, true) in Occurrences(Subst(t, Erase, scope), scope)
    ensures x == STATIC
    decreases t, |Kids(t)| + 1
  {
    if !t.Life? { ErasedFreeIn(t, scope, x, |Kids(t)|); }
  }

  lemma {:induction false} ErasedFreeIn(t: Syntax, scope: set<Name>, x: Name, n: nat)
    requires !t.Life? && n <= |Kids(t)| && (x, true) in OccurrencesIn(Subst(t, Erase, scope), scope, n)
    ensures x == STATIC
    decreases t, n
  {
    hide Subst, Occurrences;
    if (x, true) in OccurrencesIn(Subst(t, Erase, scope), scope, n - 1) {
      ErasedFreeIn(t, scope, x, n - 1);
    } else {
      ErasedFree(Kids(t)[n - 1], ScopeIn(t, scope), x);
    }
  }

  /** The fixed names `'wire` and `'view` are not fresh in every declaration: a binder of that name
      captures the rebound lifetime. */
  lemma FixedNameCaptured(t: Syntax, view: Name, x: Name)
    requires view != x && t == Bind([view], [Life(view), Life(x)])
    ensures Captured(t, Rebind({x}, view), {})
    ensures Kids(Subst(t, Rebind({x}, view), {}))[1] == Life(view)
  {
    assert SetOf(t.names) == {view};
    assert Captured(Kids(t)[1], Rebind({x}, view), ScopeIn(t, {}));
  }

  // ----- fresh names -----

  function Digits(n: nat): (d: string)
    ensures d != []
  {
    var last := ['0' + (n % 10) as char];
    if n < 10 then last else Digits(n / 10) + last
  }

  lemma {:induction false} DigitsInjective(m: nat, n: nat)
    requires Digits(m) == Digits(n)
    ensures m == n
  {
    var a, b := Digits(m), Digits(n);
    assert a[|a| - 1] == '0' + (m % 10) as char && b[|b| - 1] == '0' + (n % 10) as char;
    assert m % 10 == n % 10;
    if m >= 10 && n >= 10 {
      assert Digits(m / 10) == a[..|a| - 1] && Digits(n / 10) == b[..|b| - 1];
      DigitsInjective(m / 10, n / 10);
    }
  }

  function Candidate(stem: string, suffix: nat): (x: Name) {
    Name(if suffix == 0 then stem else stem + "_" + Digits(suffix))
  }

  lemma CandidateInjective(stem: string, m: nat, n: nat)
    requires Candidate(stem, m) == Candidate(stem, n)
    ensures m == n
  {
    var k := |stem| + 1;
    if m != 0 && n != 0 {
      assert (stem + "_" + Digits(m))[k..] == Digits(m) && (stem + "_" + Digits(n))[k..] == Digits(n);
      DigitsInjective(m, n);
    } else {
      assert m != 0 ==> |Candidate(stem, m).text| > |stem|;
      assert n != 0 ==> |Candidate(stem, n).text| > |stem|;
    }
  }

  /** The loop of `fresh_generated_lifetime`: candidates are pairwise different, so among one more than
      there are names in use one is free, and the first such is returned. */
  method FreshLifetime(names: set<Name>, stem: string) returns (x: Name)
    ensures x !in names
    ensures exists n: nat :: x == Candidate(stem, n) && forall k :: 0 <= k < n ==> Candidate(stem, k) in names
  {
    hide Candidate;
    var suffix: nat := 0;
    ghost var tried: set<Name> := {};
    while Candidate(stem, suffix) in names
      invariant tried <= names && |tried| == suffix
      invariant forall y :: y in tried ==> exists k :: 0 <= k < suffix && y == Candidate(stem, k)
      invariant forall k :: 0 <= k < suffix ==> Candidate(stem, k) in tried
      decreases |names| - |tried|
    {
      ghost var y := Candidate(stem, suffix);
      if y in tried {
        var k :| 0 <= k < suffix && y == Candidate(stem, k);
        CandidateInjective(stem, k, suffix);
      }
      Cardinality(tried + {y}, names);
      tried := tried + {y};
      suffix := suffix + 1;
    }
    x := Candidate(stem, suffix);
    assert forall k :: 0 <= k < suffix ==> Candidate(stem, k) in names;
  }

  lemma {:induction false} Cardinality<T>(a: set<T>, b: set<T>)
    requires a <= b
    ensures |a| <= |b|
    decreases |a|
  {
    if a != {} {
      var x :| x in a;
      Cardinality(a - {x}, b - {x});
    }
  }

  // ----- where-predicates -----

  /** Some free lifetime of `t` is a declared source lifetime. */
  predicate Mentions(t: Syntax, sources: set<Name>, scope: set<Name>) {
    if t.Life? then t.name in sources && t.name !in scope
    else exists i :: 0 <= i < |Kids(t)| && Mentions(Kids(t)[i], sources, ScopeIn(t, scope))
  }

  /** A type names a source lifetime exactly when one of its free occurrences is one. */
  lemma {:induction false} MentionsOccurrence(t: Syntax, sources: set<Name>, scope: set<Name>)
    ensures Mentions(t, sources, scope) <==> exists x :: x in sources && (x, true) in Occurrences(t, scope)
    decreases t, |Kids(t)| + 1
  {
    if !t.Life? { MentionsIn(t, sources, scope, |Kids(t)|); }
  }

  lemma {:induction false} MentionsIn(t: Syntax, sources: set<Name>, scope: set<Name>, n: nat)
    requires n <= |Kids(t)| && !t.Life?
    ensures (exists i :: 0 <= i < n && Mentions(Kids(t)[i], sources, ScopeIn(t, scope))) <==>
      exists x :: x in sources && (x, true) in OccurrencesIn(t, scope, n)
    decreases t, n
  {
    hide Mentions, Occurrences;
    if n != 0 {
      MentionsIn(t, sources, scope, n - 1);
      MentionsOccurrence(Kids(t)[n - 1], sources, ScopeIn(t, scope));
    }
  }

  /** `DeclaredSourceLifetimeUse`. */
  class UseFinder {
    const sources: set<Name>
    var bound: seq<set<Name>>
    var found: bool

    constructor (sources: set<Name>)
      ensures this.sources == sources && bound == [] && !found
    {
      this.sources, bound, found := sources, [], false;
    }

    method Visit(t: Syntax)
      modifies this
      ensures bound == old(bound) && found == (old(found) || Mentions(t, sources, Scope(bound)))
      decreases t
    {
      hide Scope;
      if t.Life? {
        InScope(bound, t.name);
        var isBound := exists k :: 0 <= k < |bound| && t.name in bound[k];
        if t.name in sources && !isBound { found := true; }
      } else {
        if t.Bind? {
          bound := bound + [SetOf(t.names)];
          PushScope(old(bound), SetOf(t.names));
        }
        ghost var stack := bound;
        for i := 0 to |Kids(t)|
          invariant bound == stack
          invariant found == (old(found) || exists k :: 0 <= k < i && Mentions(Kids(t)[k], sources, Scope(stack)))
        {
          Visit(Kids(t)[i]);
        }
        if t.Bind? { bound := bound[..|bound| - 1]; }
      }
    }
  }

  lemma OneScope(names: set<Name>)
    ensures Scope([names]) == names
  {
    PushScope([], names);
    assert [] + [names] == [names];
  }

  lemma InScope(stack: seq<set<Name>>, x: Name)
    ensures x in Scope(stack) <==> exists k :: 0 <= k < |stack| && x in stack[k]
  {}

  /** A where-predicate: `for<binder> bounded: bounds`, or a lifetime predicate. */
  datatype Predicate =
    | OnType(binder: seq<Name>, bounded: Syntax, bounds: seq<Syntax>)
    | OnLifetime(name: Name, outlives: seq<Name>)

  /** Whether a part of a predicate mentions a source lifetime outside the predicate's own binder. */
  method DependsOn(binder: seq<Name>, t: Syntax, sources: set<Name>) returns (found: bool)
    ensures found == Mentions(t, sources, SetOf(binder))
  {
    var visitor := new UseFinder(sources);
    visitor.bound := [SetOf(binder)];
    assert Scope(visitor.bound) == SetOf(binder) by { OneScope(SetOf(binder)); }
    visitor.Visit(t);
    found := visitor.found;
  }

  /** The elements of `ts` that do not mention a source lifetime, in order. */
  function Independent(binder: seq<Name>, ts: seq<Syntax>, sources: set<Name>): (r: seq<Syntax>)
    ensures forall t :: t in r <==> t in ts && !Mentions(t, sources, SetOf(binder))
  {
    if ts == [] then []
    else
      var front, t := Independent(binder, ts[..|ts| - 1], sources), ts[|ts| - 1];
      if Mentions(t, sources, SetOf(binder)) then front else front + [t]
  }

  method KeepBounds(binder: seq<Name>, ts: seq<Syntax>, sources: set<Name>) returns (kept: seq<Syntax>)
    ensures kept == Independent(binder, ts, sources)
  {
    kept := [];
    for i := 0 to |ts|
      invariant kept == Independent(binder, ts[..i], sources)
    {
      var found := DependsOn(binder, ts[i], sources);
      assert ts[..i + 1][..i] == ts[..i];
      if !found { kept := kept + [ts[i]]; }
    }
    assert ts[..|ts|] == ts;
  }

  /** What is left of a predicate: nothing, or the predicate with its independent bounds. */
  function Left(p: Predicate, sources: set<Name>): (r: seq<Predicate>)
    ensures |r| <= 1
  {
    if p.OnType? && !Mentions(p.bounded, sources, SetOf(p.binder)) && Independent(p.binder, p.bounds, sources) != []
    then [OnType(p.binder, p.bounded, Independent(p.binder, p.bounds, sources))]
    else []
  }

  /** What is left of every predicate, in order. */
  function Erased(ps: seq<Predicate>, sources: set<Name>): seq<Predicate> {
    if ps == [] then [] else Erased(ps[..|ps| - 1], sources) + Left(ps[|ps| - 1], sources)
  }

  /** `p` says nothing about a free source lifetime. */
  predicate Sourceless(p: Predicate, sources: set<Name>) {
    && p.OnType? && !Mentions(p.bounded, sources, SetOf(p.binder))
    && forall t :: t in p.bounds ==> !Mentions(t, sources, SetOf(p.binder))
  }

  /** `erased_where_predicates`: what is left of each predicate, in the order and as often as declared. */
  method ErasedWherePredicates(ps: seq<Predicate>, sources: set<Name>) returns (kept: seq<Predicate>)
    ensures kept == Erased(ps, sources)
    ensures forall q :: q in kept ==> Sourceless(q, sources)
  {
    kept := [];
    for i := 0 to |ps|
      invariant kept == Erased(ps[..i], sources)
    {
      var p := ps[i];
      assert ps[..i + 1][..i] == ps[..i];
      if p.OnType? {
        var found := DependsOn(p.binder, p.bounded, sources);
        if !found {
          var bounds := KeepBounds(p.binder, p.bounds, sources);
          if bounds != [] { kept := kept + [OnType(p.binder, p.bounded, bounds)]; }
        }
      }
    }
    assert ps[..|ps|] == ps;
    forall q | q in kept ensures Sourceless(q, sources) { ErasedSourceless(ps, sources, q); }
  }

  lemma {:induction false} ErasedSourceless(ps: seq<Predicate>, sources: set<Name>, q: Predicate)
    requires q in Erased(ps, sources)
    ensures Sourceless(q, sources)
  {
    var front, p := ps[..|ps| - 1], ps[|ps| - 1];
    if q in Erased(front, sources) {
      ErasedSourceless(front, sources, q);
    } else {
      assert q in Left(p, sources);
    }
  }

  /** Predicates that mention no source lifetime all survive, unchanged. */
  lemma {:induction false} ErasedKeeps(ps: seq<Predicate>, sources: set<Name>)
    requires forall i :: 0 <= i < |ps| ==> Sourceless(ps[i], sources) && ps[i].bounds != []
    ensures Erased(ps, sources) == ps
  {
    hide *;
    if ps != [] {
      var front, p := ps[..|ps| - 1], ps[|ps| - 1];
      ErasedKeeps(front, sources);
      LeftWhole(p, sources);
      ErasedStep(ps, sources);
      assert ps == front + [p];
    } else {
      ErasedStep(ps, sources);
    }
  }

  lemma ErasedStep(ps: seq<Predicate>, sources: set<Name>)
    ensures Erased(ps, sources) ==
      if ps == [] then [] else Erased(ps[..|ps| - 1], sources) + Left(ps[|ps| - 1], sources)
  {}

  lemma LeftWhole(p: Predicate, sources: set<Name>)
    requires Sourceless(p, sources) && p.bounds != []
    ensures Left(p, sources) == [p]
  {
    hide Mentions, Independent;
    IndependentAll(p.binder, p.bounds, sources);
  }

  lemma {:induction false} IndependentAll(binder: seq<Name>, ts: seq<Syntax>, sources: set<Name>)
    requires forall t :: t in ts ==> !Mentions(t, sources, SetOf(binder))
    ensures Independent(binder, ts, sources) == ts
  {
    if ts != [] { IndependentAll(binder, ts[..|ts| - 1], sources); }
  }

  // ----- bound by bound -----

  /** One bound of a where-clause: `for<binder> bounded: bound`. */
  datatype Fact = Fact(binder: seq<Name>, bounded: Syntax, bound: Syntax)

  /** The bounds of one predicate, of a where-clause, in order. */
  function FactsOf(p: Predicate): seq<Fact> {
    if p.OnLifetime? then []
    else seq(|p.bounds|, i requires 0 <= i < |p.bounds| => Fact(p.binder, p.bounded, p.bounds[i]))
  }

  function Facts(ps: seq<Predicate>): seq<Fact> {
    if ps == [] then [] else Facts(ps[..|ps| - 1]) + FactsOf(ps[|ps| - 1])
  }

  /** Neither side of the bound names a free source lifetime. */
  predicate Free(f: Fact, sources: set<Name>) {
    !Mentions(f.bounded, sources, SetOf(f.binder)) && !Mentions(f.bound, sources, SetOf(f.binder))
  }

  function Freed(fs: seq<Fact>, sources: set<Name>): (r: seq<Fact>)
    ensures forall f :: f in r <==> f in fs && Free(f, sources)
  {
    if fs == [] then []
    else
      var front, f := Freed(fs[..|fs| - 1], sources), fs[|fs| - 1];
      if Free(f, sources) then front + [f] else front
  }

  /** Erasure keeps exactly the bounds that name no free source lifetime, each under its own binder and bounded
      type, in order: no bound is lost for what stands beside it. */
  lemma {:induction false} ErasedFacts(ps: seq<Predicate>, sources: set<Name>)
    ensures Facts(Erased(ps, sources)) == Freed(Facts(ps), sources)
  {
    hide *;
    FactsStep(ps);
    ErasedStep(ps, sources);
    if ps == [] {
      FreedNone(sources);
      FactsStep([]);
    } else {
      var front, p := ps[..|ps| - 1], ps[|ps| - 1];
      ErasedFacts(front, sources);
      FreedConcat(Facts(front), FactsOf(p), sources);
      FactsConcat(Erased(front, sources), Left(p, sources));
      LeftFacts(p, sources);
    }
  }

  lemma FactsStep(ps: seq<Predicate>)
    ensures Facts(ps) == if ps == [] then [] else Facts(ps[..|ps| - 1]) + FactsOf(ps[|ps| - 1])
  {}

  lemma FreedNone(sources: set<Name>)
    ensures Freed([], sources) == []
  {}

  lemma {:induction false} FactsConcat(a: seq<Predicate>, b: seq<Predicate>)
    ensures Facts(a + b) == Facts(a) + Facts(b)
  {
    hide FactsOf;
    if b == [] {
      assert a + b == a;
    } else {
      FactsConcat(a, b[..|b| - 1]);
      assert (a + b)[..|a + b| - 1] == a + b[..|b| - 1];
    }
  }

  lemma {:induction false} FreedConcat(a: seq<Fact>, b: seq<Fact>, sources: set<Name>)
    ensures Freed(a + b, sources) == Freed(a, sources) + Freed(b, sources)
  {
    hide Free;
    if b == [] {
      assert a + b == a;
    } else {
      FreedConcat(a, b[..|b| - 1], sources);
      assert (a + b)[..|a + b| - 1] == a + b[..|b| - 1];
    }
  }

  lemma LeftFacts(p: Predicate, sources: set<Name>)
    ensures Facts(Left(p, sources)) == Freed(FactsOf(p), sources)
  {
    hide Mentions, Independent;
    if p.OnType? { IndependentFacts(p.binder, p.bounded, p.bounds, sources); }
    var left := Left(p, sources);
    if left != [] { assert left[..0] == [] && Facts([]) == []; }
  }

  lemma {:induction false} IndependentFacts(binder: seq<Name>, t: Syntax, ts: seq<Syntax>, sources: set<Name>)
    ensures Freed(FactsOf(OnType(binder, t, ts)), sources) ==
      if Mentions(t, sources, SetOf(binder)) then []
      else FactsOf(OnType(binder, t, Independent(binder, ts, sources)))
  {
    hide Mentions;
    if ts != [] {
      var front := ts[..|ts| - 1];
      IndependentFacts(binder, t, front, sources);
      var fs := FactsOf(OnType(binder, t, ts));
      assert fs[..|fs| - 1] == FactsOf(OnType(binder, t, front));
    }
  }

  // ----- a fresh name for a whole declaration -----

  function AllNames(ts: seq<Syntax>): (names: set<Name>)
    ensures forall i :: 0 <= i < |ts| ==> Names(ts[i]) <= names
  {
    if ts == [] then {} else AllNames(ts[..|ts| - 1]) + Names(ts[|ts| - 1])
  }

  /** No candidate but the stem itself can be `static`. */
  lemma CandidateNotStatic(stem: string, n: nat)
    requires stem != STATIC.text
    ensures Candidate(stem, n) != STATIC
  {
    if n != 0 {
      var text := Candidate(stem, n).text;
      assert text[|stem|] == '_';
      assert '_' !in STATIC.text;
    }
  }

  /** `r` is `t` with every free source lifetime renamed `to` and still free, nothing else moved: no source
      lifetime is left free, and erasing `r` is erasing `t`. */
  predicate Rebound(t: Syntax, r: Syntax, sources: set<Name>, to: Name) {
    && Moved(Occurrences(t, {}), Occurrences(r, {}), sources, to)
    && Subst(r, Erase, {}) == Subst(t, Erase, {})
    && !Mentions(r, sources, {})
  }

  /** Choosing a name for a declaration and rebinding its types to it. */
  method RebindDeclaration(ts: seq<Syntax>, sources: set<Name>, stem: string) returns (to: Name, out: seq<Syntax>)
    requires stem != STATIC.text
    ensures to !in sources && |out| == |ts|
    ensures forall i :: 0 <= i < |ts| ==> to !in Names(ts[i]) && Rebound(ts[i], out[i], sources, to)
  {
    hide *;
    to := FreshName(sources + AllNames(ts), stem);
    var rewriter := new Rewriter(Rebind(sources, to));
    EmptyScope();
    out := [];
    for i := 0 to |ts|
      invariant rewriter.bound == [] && |out| == i
      invariant forall k :: 0 <= k < i ==> Rebound(ts[k], out[k], sources, to)
    {
      var t := rewriter.Visit(ts[i]);
      RebindOne(ts[i], sources, to);
      out := out + [t];
    }
  }

  method FreshName(names: set<Name>, stem: string) returns (to: Name)
    requires stem != STATIC.text
    ensures to !in names && to != STATIC
  {
    hide Candidate;
    to := FreshLifetime(names, stem);
    ghost var n: nat :| to == Candidate(stem, n);
    CandidateNotStatic(stem, n);
  }

  lemma EmptyScope()
    ensures Scope([]) == {}
  {}

  lemma RebindOne(t: Syntax, sources: set<Name>, to: Name)
    requires to !in Names(t) && to != STATIC && to !in sources
    ensures Rebound(t, Subst(t, Rebind(sources, to), {}), sources, to)
  {
    FreshRebind(t, sources, to);
    NoSourceLeft(t, sources, to);
  }

  /** After the rebinding no source lifetime is free. */
  lemma NoSourceLeft(t: Syntax, sources: set<Name>, to: Name)
    requires to !in Names(t) && to != STATIC && to !in sources
    ensures !Mentions(Subst(t, Rebind(sources, to), {}), sources, {})
  {
    var r := Subst(t, Rebind(sources, to), {});
    FreshRebind(t, sources, to);
    MentionsOccurrence(r, sources, {});
  }
}
