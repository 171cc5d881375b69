/** The child loop of the transformer as the source writes it: an index
    into the live child list of the element, which the splice of an include
    site shrinks or grows while the loop runs. Each visited child is expanded
    as `Expand` does; only the iteration over one level differs from
    `ExpandSeq`, which iterates over a snapshot. */
module LiveChildList {
  import opened Outcome
  import opened XmlTree
  import opened IncludeTransformer
  import opened ExpansionFacts

  /** The include sites directly in a sequence (not below it). */
  function TopIncludes(ns: seq<Node>): (k: nat)
    ensures k <= |ns|
  {
    if ns == [] then 0 else (if IsInclude(ns[0]) then 1 else 0) + TopIncludes(ns[1..])
  }

  lemma {:induction false} TopIncludesOfIncludeFree(ns: seq<Node>)
    requires AllIncludeFree(ns)
    ensures TopIncludes(ns) == 0
  {
    if ns != [] {
      assert ns[0] in ns;
      assert AllIncludeFree(ns[1..]) by {
        forall n <- ns[1..] ensures IncludeFree(n) {
          assert n in ns;
        }
      }
      TopIncludesOfIncludeFree(ns[1..]);
    }
  }

  lemma {:induction false} TopIncludesConcat(a: seq<Node>, b: seq<Node>)
    ensures TopIncludes(a + b) == TopIncludes(a) + TopIncludes(b)
  {
    if a == [] {
      assert a + b == b;
    } else {
      assert (a + b)[1..] == a[1..] + b;
      TopIncludesConcat(a[1..], b);
    }
  }

  function From(ns: seq<Node>, i: nat): seq<Node> {
    if i <= |ns| then ns[i..] else []
  }

  function Remaining(ns: seq<Node>, i: nat): nat {
    if i <= |ns| then |ns| - i else 0
  }

  /** Visiting the child at `i` replaces it in place by its expansion, and
      the index then moves on by one however many nodes took its place: a
      site whose fragment is empty makes the loop step over the next
      sibling, and a fragment of several nodes has all but its first node
      visited a second time. */
  function LiveChildren(kids: seq<Node>, i: nat, ctx: Context, included: bool, env: Env, fuel: nat): (r: Result<seq<Node>>)
    ensures r.Ok? && i <= |kids| ==> i <= |r.value| && r.value[..i] == kids[..i]
    ensures r.Ok? && i >= |kids| ==> r.value == kids
    decreases TopIncludes(From(kids, i)), Remaining(kids, i)
  {
    if i >= |kids| then Ok(kids)
    else
      var rep :- Expand(kids[i], ctx, included, env, fuel);
      var kids' := kids[..i] + rep + kids[i + 1..];
      LiveStepShrinks(kids, i, rep);
      assert kids'[..i] == kids[..i];
      var r' := LiveChildren(kids', i + 1, ctx, included, env, fuel);
      assert r'.Ok? && i + 1 <= |kids'| ==> r'.value[..i] == r'.value[..i + 1][..i];
      r'
  }

  /** The measure that makes the live loop terminate: either an include
      site left the unvisited part, or that part got one node shorter. */
  lemma LiveStepShrinks(kids: seq<Node>, i: nat, rep: seq<Node>)
    requires i < |kids| && AllIncludeFree(rep)
    requires !IsInclude(kids[i]) ==> |rep| == 1
    ensures var kids' := kids[..i] + rep + kids[i + 1..];
            || TopIncludes(From(kids', i + 1)) < TopIncludes(From(kids, i))
            || (TopIncludes(From(kids', i + 1)) == TopIncludes(From(kids, i))
                && Remaining(kids', i + 1) < Remaining(kids, i))
  {
    var kids' := kids[..i] + rep + kids[i + 1..];
    assert kids[i..] == [kids[i]] + kids[i + 1..];
    assert TopIncludes(kids[i..]) == (if IsInclude(kids[i]) then 1 else 0) + TopIncludes(kids[i + 1..]);
    if |rep| == 0 {
      assert kids' == kids[..i] + kids[i + 1..];
      if i + 1 <= |kids'| {
        assert From(kids', i + 1) == kids[i + 2..];
        assert kids[i + 1..] == [kids[i + 1]] + kids[i + 2..];
      }
    } else {
      assert From(kids', i + 1) == rep[1..] + kids[i + 1..];
      assert AllIncludeFree(rep[1..]) by {
        forall n <- rep[1..] ensures IncludeFree(n) {
          assert n in rep;
        }
      }
      TopIncludesOfIncludeFree(rep[1..]);
      TopIncludesConcat(rep[1..], kids[i + 1..]);
    }
  }

  /** Registry of the counterexample: an empty fragment and a one-text one. */
  function EmptyThenTextEnv(): Env {
    Env(map["empty" := Element("sql", map[], []), "text" := Element("sql", map[], [Text("X")])],
        (s: string, c: Context) => s,
        (s: string) => s)
  }

  function SiteOf(refid: string): Node {
    Element(IncludeTag, map["refid" := refid], [])
  }

  /** Two adjacent sites, the first naming an empty fragment: the live loop
      never visits the second site, which survives into the statement, while
      the snapshot iteration expands both. */
  lemma EmptyFragmentSkipsSibling(ctx: Context, included: bool)
    ensures LiveChildren([SiteOf("empty"), SiteOf("text")], 0, ctx, included, EmptyThenTextEnv(), 1)
         == Ok([SiteOf("text")])
    ensures !AllIncludeFree([SiteOf("text")])
    ensures ExpandSeq([SiteOf("empty"), SiteOf("text")], ctx, included, EmptyThenTextEnv(), 1)
         == Ok(if ctx == map[] then [Text("X")] else [Text(EmptyThenTextEnv().subst("X", ctx))])
  {
    var env := EmptyThenTextEnv();
    var kids := [SiteOf("empty"), SiteOf("text")];
    assert FragmentKey("empty", ctx, env) == "empty";
    assert FragmentKey("text", ctx, env) == "text";
    assert VariablesContext([], ctx, env.subst) == Ok(ctx);
    assert Expand(kids[0], ctx, included, env, 1) == Ok([]);
    assert kids[..0] + [] + kids[1..] == [SiteOf("text")];
    assert [Text("X")][1..] == [];
    assert kids[1..] == [SiteOf("text")];
    assert kids[1..][1..] == [];
    assert !IncludeFree(SiteOf("text"));
    var x := if ctx == map[] then Text("X") else Text(env.subst("X", ctx));
    assert Expand(Text("X"), ctx, true, env, 0) == Ok([x]);
    SingletonExpansion(Text("X"), ctx, true, env, 0);
    assert Expand(kids[1], ctx, included, env, 1) == Ok([x]);
    SingletonExpansion(kids[1], ctx, included, env, 1);
    assert ExpandSeq(kids[1..], ctx, included, env, 1) == Ok([x]);
    assert [] + [x] == [x];
  }

  /** A toy substitutor: a text that is a key of the context is replaced by
      that key's value; any other text is kept. */
  function WholeTextSubst(t: string, c: Context): string {
    if t in c then c[t] else t
  }

  /** Registry of the second counterexample: one fragment of two text nodes. */
  function TwoTextEnv(): Env {
    Env(map["two" := Element("sql", map[], [Text("a"), Text("b")])],
        WholeTextSubst,
        (s: string) => s)
  }

  /** A site inside an inclusion whose fragment has two text nodes, in a
      context where substituting "b" gives "c" and substituting "c" gives
      "d": the live loop visits the spliced "c" again and substitutes it a
      second time, while the snapshot iteration substitutes each node once. */
  lemma SplicedNodesRevisited()
    ensures var ctx := map["b" := "c", "c" := "d"];
            LiveChildren([SiteOf("two")], 0, ctx, true, TwoTextEnv(), 1) == Ok([Text("a"), Text("d")])
    ensures var ctx := map["b" := "c", "c" := "d"];
            ExpandSeq([SiteOf("two")], ctx, true, TwoTextEnv(), 1) == Ok([Text("a"), Text("c")])
  {
    var env := TwoTextEnv();
    var ctx := map["b" := "c", "c" := "d"];
    var site := SiteOf("two");
    assert FragmentKey("two", ctx, env) == "two";
    assert VariablesContext([], ctx, env.subst) == Ok(ctx);
    var body := [Text("a"), Text("b")];
    assert FragmentBody(env.fragments["two"]) == body;
    assert "b" in ctx && ctx != map[];
    assert env.subst("a", ctx) == "a" && env.subst("b", ctx) == "c" && env.subst("c", ctx) == "d";
    assert env.subst("two", ctx) == "two";
    assert Expand(Text("a"), ctx, true, env, 0) == Ok([Text("a")]);
    assert Expand(Text("b"), ctx, true, env, 0) == Ok([Text("c")]);
    SingletonExpansion(Text("b"), ctx, true, env, 0);
    assert body[1..] == [Text("b")];
    assert ExpandSeq(body, ctx, true, env, 0) == Ok([Text("a")] + [Text("c")]);
    assert [Text("a")] + [Text("c")] == [Text("a"), Text("c")];
    assert site.attrs["refid"] == "two" && site.children == [];
    assert FindSqlFragment("two", ctx, env) == Ok(env.fragments["two"]);
    assert Expand(site, ctx, true, env, 1) == Ok([Text("a"), Text("c")]);
    SingletonExpansion(site, ctx, true, env, 1);
    var kids := [site];
    var kids1 := kids[..0] + [Text("a"), Text("c")] + kids[1..];
    assert kids1 == [Text("a"), Text("c")];
    assert Expand(kids1[1], ctx, true, env, 1) == Ok([Text("d")]);
    var kids2 := kids1[..1] + [Text("d")] + kids1[2..];
    assert kids2 == [Text("a"), Text("d")];
    assert LiveChildren(kids2, 2, ctx, true, env, 1) == Ok(kids2);
    assert LiveChildren(kids1, 1, ctx, true, env, 1) == Ok(kids2);
  }
}
