/** What the context an include site derives for its fragment contains. */
module VariablesContextFacts {
  import opened Outcome
  import opened XmlTree
  import opened IncludeTransformer

  /** Every element child of the site declares both a `name` and a `value`. */
  predicate WellFormedSite(children: seq<Node>) {
    forall c <- children :: c.Element? ==> "name" in c.attrs && "value" in c.attrs
  }

  /** The site's declarations as (name, raw value) pairs in document order. */
  function Declarations(children: seq<Node>): (d: seq<(string, string)>)
    requires WellFormedSite(children)
    ensures |d| == |Params(children)|
  {
    if children == [] then []
    else if children[0].Element? then
      [(children[0].attrs["name"], children[0].attrs["value"])] + Declarations(children[1..])
    else Declarations(children[1..])
  }

  function NameSet(d: seq<(string, string)>): set<string> {
    set e <- d :: e.0
  }

  predicate NamesDistinct(d: seq<(string, string)>) {
    forall i, j | 0 <= i < j < |d| :: d[i].0 != d[j].0
  }

  predicate DeclaredTwice(d: seq<(string, string)>, x: string) {
    exists i, j | 0 <= i < j < |d| :: d[i].0 == x && d[j].0 == x
  }

  lemma RestWellFormed(children: seq<Node>)
    requires children != [] && WellFormedSite(children)
    ensures WellFormedSite(children[1..])
  {
  }

  /** Splitting the first declaration off a declaration list. */
  lemma ConsDeclaration(e: (string, string), d: seq<(string, string)>)
    ensures NameSet([e] + d) == {e.0} + NameSet(d)
    ensures NamesDistinct([e] + d) <==> e.0 !in NameSet(d) && NamesDistinct(d)
    ensures forall x :: DeclaredTwice(d, x) ==> DeclaredTwice([e] + d, x)
    ensures e.0 in NameSet(d) ==> DeclaredTwice([e] + d, e.0)
  {
    var d1 := [e] + d;
    if e.0 in NameSet(d) {
      var k :| 0 <= k < |d| && d[k].0 == e.0;
      assert d1[0].0 == e.0 && d1[k + 1].0 == e.0;
    }
    if NamesDistinct(d1) {
      forall i, j | 0 <= i < j < |d| ensures d[i].0 != d[j].0 {
        assert d1[i + 1] == d[i] && d1[j + 1] == d[j];
      }
    }
    if e.0 !in NameSet(d) && NamesDistinct(d) {
      forall i, j | 0 <= i < j < |d1| ensures d1[i].0 != d1[j].0 {
        if i > 0 {
          assert d1[i] == d[i - 1] && d1[j] == d[j - 1];
        } else {
          assert d1[j] == d[j - 1];
        }
      }
    }
    forall x | DeclaredTwice(d, x) ensures DeclaredTwice(d1, x) {
      var i, j :| 0 <= i < j < |d| && d[i].0 == x && d[j].0 == x;
      assert d1[i + 1].0 == x && d1[j + 1].0 == x;
    }
  }

  /** With complete declarations, the only way to fail is a duplicate name,
      and the name reported was declared twice (or redeclares `declared`). */
  lemma {:induction false} DeclareAllFailure(children: seq<Node>, declared: Context, inherited: Context, subst: Substitutor)
    requires WellFormedSite(children)
    ensures var d := Declarations(children);
            var r := DeclareAll(children, declared, inherited, subst);
            && (!r.Ok? ==> r.Fatal? && r.error.DuplicateVariable?)
            && (r.Fatal? ==> (r.error.variable in declared && r.error.variable in NameSet(d))
                               || DeclaredTwice(d, r.error.variable))
  {
    if children != [] {
      RestWellFormed(children);
      var rest := children[1..];
      if !children[0].Element? {
        DeclareAllFailure(rest, declared, inherited, subst);
      } else {
        var p := children[0];
        var e := (p.attrs["name"], p.attrs["value"]);
        ConsDeclaration(e, Declarations(rest));
        if e.0 !in declared {
          DeclareAllFailure(rest, declared[e.0 := subst(e.1, inherited)], inherited, subst);
        }
      }
    }
  }

  /** With complete declarations, collecting succeeds exactly when the names
      are pairwise distinct and none is already in `declared`. */
  lemma {:induction false} DeclareAllSucceeds(children: seq<Node>, declared: Context, inherited: Context, subst: Substitutor)
    requires WellFormedSite(children)
    ensures var d := Declarations(children);
            DeclareAll(children, declared, inherited, subst).Ok? <==> NamesDistinct(d) && NameSet(d) !! declared.Keys
  {
    if children != [] {
      RestWellFormed(children);
      var rest := children[1..];
      if !children[0].Element? {
        DeclareAllSucceeds(rest, declared, inherited, subst);
      } else {
        var p := children[0];
        var e := (p.attrs["name"], p.attrs["value"]);
        ConsDeclaration(e, Declarations(rest));
        if e.0 !in declared {
          DeclareAllSucceeds(rest, declared[e.0 := subst(e.1, inherited)], inherited, subst);
        }
      }
    }
  }

  /** A successful collection adds exactly the declared names, each mapped to
      its raw value substituted against the inherited context. */
  lemma {:induction false} DeclareAllContents(children: seq<Node>, declared: Context, inherited: Context, subst: Substitutor)
    requires WellFormedSite(children)
    requires DeclareAll(children, declared, inherited, subst).Ok?
    ensures var d := Declarations(children);
            var c := DeclareAll(children, declared, inherited, subst).value;
            && c.Keys == declared.Keys + NameSet(d)
            && forall e <- d :: c[e.0] == subst(e.1, inherited)
  {
    if children != [] {
      RestWellFormed(children);
      var rest := children[1..];
      if !children[0].Element? {
        DeclareAllContents(rest, declared, inherited, subst);
      } else {
        var p := children[0];
        var e := (p.attrs["name"], p.attrs["value"]);
        ConsDeclaration(e, Declarations(rest));
        DeclareAllContents(rest, declared[e.0 := subst(e.1, inherited)], inherited, subst);
      }
    }
  }

  /** The derived context, for a site whose declarations are all complete:
      it exists exactly when no name is declared twice (a repeated name fails
      with the fatal duplicate error however the values compare); it holds
      the inherited keys and the declared names; a declared name maps to its
      raw value substituted against the inherited context only; an inherited
      key that is not redeclared keeps its inherited value. */
  lemma VariablesContextSpec(children: seq<Node>, inherited: Context, subst: Substitutor)
    requires WellFormedSite(children)
    ensures var d := Declarations(children);
            var r := VariablesContext(children, inherited, subst);
            && (r.Ok? <==> NamesDistinct(d))
            && (!r.Ok? ==> r.Fatal? && r.error.DuplicateVariable? && DeclaredTwice(d, r.error.variable))
            && (r.Ok? ==> r.value.Keys == inherited.Keys + NameSet(d))
            && (r.Ok? ==> forall e <- d :: r.value[e.0] == subst(e.1, inherited))
            && (r.Ok? ==> forall k <- inherited.Keys :: k !in NameSet(d) ==> r.value[k] == inherited[k])
  {
    DeclareAllFailure(children, map[], inherited, subst);
    DeclareAllSucceeds(children, map[], inherited, subst);
    if VariablesContext(children, inherited, subst).Ok? {
      DeclareAllContents(children, map[], inherited, subst);
    }
  }

  /** An element child missing its `name` or `value` makes the site fail
      fatally: either at that child or at an earlier duplicate. */
  lemma {:induction false} MalformedSiteFails(children: seq<Node>, declared: Context, inherited: Context, subst: Substitutor)
    requires !WellFormedSite(children)
    ensures DeclareAll(children, declared, inherited, subst).Fatal?
    ensures VariablesContext(children, inherited, subst).Fatal?
  {
    var c :| c in children && c.Element? && !("name" in c.attrs && "value" in c.attrs);
    if children[0] == c {
    } else {
      assert c in children[1..];
      var p := children[0];
      if p.Element? && "name" in p.attrs && "value" in p.attrs && p.attrs["name"] !in declared {
        MalformedSiteFails(children[1..], declared[p.attrs["name"] := subst(p.attrs["value"], inherited)], inherited, subst);
      } else if !p.Element? {
        MalformedSiteFails(children[1..], declared, inherited, subst);
      }
    }
    if declared != map[] {
      MalformedSiteFails(children, map[], inherited, subst);
    }
  }
}
