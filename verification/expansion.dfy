/** Properties of include expansion: where the fragment lands, which
    context it sees, when nothing changes, and which outcome each failure
    produces. */
module ExpansionFacts {
  import opened Outcome
  import opened XmlTree
  import opened IncludeTransformer
  import opened VariablesContextFacts

  /** Sequencing of two expansions: the first failure wins, otherwise the
      replacements are concatenated in order. */
  function Then(ra: Result<seq<Node>>, rb: Result<seq<Node>>): Result<seq<Node>> {
    if !ra.Ok? then ra else if !rb.Ok? then rb else Ok(ra.value + rb.value)
  }

  /** Expanding a concatenation of siblings expands each part on its own, in
      the same context, and concatenates the results in order. */
  lemma {:induction false} ExpandSeqConcat(a: seq<Node>, b: seq<Node>, ctx: Context, included: bool, env: Env, fuel: nat)
    ensures ExpandSeq(a + b, ctx, included, env, fuel)
         == Then(ExpandSeq(a, ctx, included, env, fuel), ExpandSeq(b, ctx, included, env, fuel))
  {
    if a == [] {
      assert a + b == b;
      var rb := ExpandSeq(b, ctx, included, env, fuel);
      if rb.Ok? {
        assert [] + rb.value == rb.value;
      }
    } else {
      assert (a + b)[0] == a[0];
      assert (a + b)[1..] == a[1..] + b;
      ExpandSeqConcat(a[1..], b, ctx, included, env, fuel);
      var h := Expand(a[0], ctx, included, env, fuel);
      var ra := ExpandSeq(a[1..], ctx, included, env, fuel);
      var rb := ExpandSeq(b, ctx, included, env, fuel);
      if h.Ok? && ra.Ok? && rb.Ok? {
        assert h.value + (ra.value + rb.value) == (h.value + ra.value) + rb.value;
      }
    }
  }

  /** An include-free subtree outside an inclusion, or in an empty context,
      is returned exactly as it was. */
  lemma {:induction false} ExpandUnchanged(n: Node, ctx: Context, included: bool, env: Env, fuel: nat)
    requires IncludeFree(n) && !SubstitutionOn(included, ctx)
    ensures Expand(n, ctx, included, env, fuel) == Ok([n])
    decreases n
  {
    match n
    case Element(_, _, kids) =>
      ExpandSeqUnchanged(kids, ctx, included, env, fuel);
    case _ =>
  }

  lemma {:induction false} ExpandSeqUnchanged(ns: seq<Node>, ctx: Context, included: bool, env: Env, fuel: nat)
    requires AllIncludeFree(ns) && !SubstitutionOn(included, ctx)
    ensures ExpandSeq(ns, ctx, included, env, fuel) == Ok(ns)
    decreases ns
  {
    if ns != [] {
      ExpandUnchanged(ns[0], ctx, included, env, fuel);
      ExpandSeqUnchanged(ns[1..], ctx, included, env, fuel);
      assert [ns[0]] + ns[1..] == ns;
    }
  }

  /** An include-free subtree inside an inclusion with a non-empty context
      comes out with every text and attribute value substituted and every
      other node untouched. */
  lemma {:induction false} ExpandSubstitutes(n: Node, ctx: Context, included: bool, env: Env, fuel: nat)
    requires IncludeFree(n) && SubstitutionOn(included, ctx)
    ensures Expand(n, ctx, included, env, fuel) == Ok([SubstTree(n, ctx, env.subst)])
    decreases n
  {
    match n
    case Element(_, _, kids) =>
      ExpandSeqSubstitutes(kids, ctx, included, env, fuel);
    case _ =>
  }

  lemma {:induction false} ExpandSeqSubstitutes(ns: seq<Node>, ctx: Context, included: bool, env: Env, fuel: nat)
    requires AllIncludeFree(ns) && SubstitutionOn(included, ctx)
    ensures ExpandSeq(ns, ctx, included, env, fuel) == Ok(SubstSeq(ns, ctx, env.subst))
    decreases ns
  {
    if ns != [] {
      ExpandSubstitutes(ns[0], ctx, included, env, fuel);
      ExpandSeqSubstitutes(ns[1..], ctx, included, env, fuel);
    }
  }

  /** An include site with a registered fragment and a valid parameter list
      is replaced by the fragment's children expanded inside-out: nested
      includes resolved and placeholders substituted in the site's derived
      context, as an inclusion, whatever the caller's own flag. */
  lemma IncludeSiteExpansion(n: Node, ctx: Context, included: bool, env: Env, fuel: nat)
    requires IsInclude(n) && n.Element? && "refid" in n.attrs
    requires FragmentKey(n.attrs["refid"], ctx, env) in env.fragments
    requires VariablesContext(n.children, ctx, env.subst).Ok?
    requires fuel > 0
    ensures var template := env.fragments[FragmentKey(n.attrs["refid"], ctx, env)];
            var siteCtx := VariablesContext(n.children, ctx, env.subst).value;
            Expand(n, ctx, included, env, fuel) == ExpandSeq(FragmentBody(template), siteCtx, true, env, fuel - 1)
  {
  }

  /** For a fragment whose body holds no nested include, the site's result
      is the body with the site's context substituted in (or verbatim when
      that context is empty). */
  lemma FragmentSubstitutedInSiteContext(n: Node, ctx: Context, included: bool, env: Env, fuel: nat)
    requires IsInclude(n) && n.Element? && "refid" in n.attrs
    requires FragmentKey(n.attrs["refid"], ctx, env) in env.fragments
    requires AllIncludeFree(FragmentBody(env.fragments[FragmentKey(n.attrs["refid"], ctx, env)]))
    requires VariablesContext(n.children, ctx, env.subst).Ok?
    requires fuel > 0
    ensures var body := FragmentBody(env.fragments[FragmentKey(n.attrs["refid"], ctx, env)]);
            var siteCtx := VariablesContext(n.children, ctx, env.subst).value;
            Expand(n, ctx, included, env, fuel)
              == if siteCtx == map[] then Ok(body) else Ok(SubstSeq(body, siteCtx, env.subst))
  {
    var body := FragmentBody(env.fragments[FragmentKey(n.attrs["refid"], ctx, env)]);
    var siteCtx := VariablesContext(n.children, ctx, env.subst).value;
    if siteCtx == map[] {
      ExpandSeqUnchanged(body, siteCtx, true, env, fuel - 1);
    } else {
      ExpandSeqSubstitutes(body, siteCtx, true, env, fuel - 1);
    }
  }

  /** Inside-out expansion over two levels. The fragment of `outer` holds
      the site `inner` between include-free siblings, and the fragment of
      `inner` holds no further include. The outer fragment's own nodes are
      substituted in the outer site's context `c1`; the inner fragment's
      nodes in the context `c2` that the inner site derives from `c1`, so
      the outer site's declarations are visible to it unless redeclared. */
  lemma NestedIncludeExpansion(outer: Node, pre: seq<Node>, inner: Node, post: seq<Node>,
                               ctx: Context, included: bool, env: Env, fuel: nat)
    requires IsInclude(outer) && outer.Element? && "refid" in outer.attrs
    requires FragmentKey(outer.attrs["refid"], ctx, env) in env.fragments
    requires FragmentBody(env.fragments[FragmentKey(outer.attrs["refid"], ctx, env)]) == pre + [inner] + post
    requires VariablesContext(outer.children, ctx, env.subst).Ok?
    requires VariablesContext(outer.children, ctx, env.subst).value != map[]
    requires AllIncludeFree(pre) && AllIncludeFree(post)
    requires IsInclude(inner) && inner.Element? && "refid" in inner.attrs
    requires var c1 := VariablesContext(outer.children, ctx, env.subst).value;
             && FragmentKey(inner.attrs["refid"], c1, env) in env.fragments
             && AllIncludeFree(FragmentBody(env.fragments[FragmentKey(inner.attrs["refid"], c1, env)]))
             && VariablesContext(inner.children, c1, env.subst).Ok?
    requires fuel >= 2
    ensures var c1 := VariablesContext(outer.children, ctx, env.subst).value;
            var c2 := VariablesContext(inner.children, c1, env.subst).value;
            var body2 := FragmentBody(env.fragments[FragmentKey(inner.attrs["refid"], c1, env)]);
            && c1.Keys <= c2.Keys
            && Expand(outer, ctx, included, env, fuel)
               == Ok(SubstSeq(pre, c1, env.subst) + SubstSeq(body2, c2, env.subst) + SubstSeq(post, c1, env.subst))
  {
    var c1 := VariablesContext(outer.children, ctx, env.subst).value;
    var c2 := VariablesContext(inner.children, c1, env.subst).value;
    var body2 := FragmentBody(env.fragments[FragmentKey(inner.attrs["refid"], c1, env)]);
    var k :| k in c1;
    assert k in c2;
    IncludeSiteExpansion(outer, ctx, included, env, fuel);
    assert Expand(outer, ctx, included, env, fuel) == ExpandSeq(pre + [inner] + post, c1, true, env, fuel - 1);
    FragmentSubstitutedInSiteContext(inner, c1, true, env, fuel - 1);
    assert Expand(inner, c1, true, env, fuel - 1) == Ok(SubstSeq(body2, c2, env.subst));
    ExpandSeqSubstitutes(pre, c1, true, env, fuel - 1);
    ExpandSeqSubstitutes(post, c1, true, env, fuel - 1);
    SpliceAtIncludeSite(pre, inner, post, c1, true, env, fuel - 1);
  }

  /** The splice: an include among siblings is replaced, at its own
      position, by its own expansion; the siblings before and after are
      expanded independently in the parent's context; and no include
      remains. */
  lemma SpliceAtIncludeSite(pre: seq<Node>, n: Node, post: seq<Node>, ctx: Context, included: bool, env: Env, fuel: nat)
    requires IsInclude(n)
    requires Expand(n, ctx, included, env, fuel).Ok?
    requires ExpandSeq(pre, ctx, included, env, fuel).Ok? && ExpandSeq(post, ctx, included, env, fuel).Ok?
    ensures var site := Expand(n, ctx, included, env, fuel).value;
            var pre' := ExpandSeq(pre, ctx, included, env, fuel).value;
            var post' := ExpandSeq(post, ctx, included, env, fuel).value;
            ExpandSeq(pre + [n] + post, ctx, included, env, fuel) == Ok(pre' + site + post')
  {
    ExpandSeqConcat(pre + [n], post, ctx, included, env, fuel);
    ExpandSeqConcat(pre, [n], ctx, included, env, fuel);
    SingletonExpansion(n, ctx, included, env, fuel);
  }

  /** Outside an inclusion, include-free siblings of an include site come
      out exactly as they were, on either side of the site's replacement. */
  lemma SpliceKeepsSiblings(pre: seq<Node>, n: Node, post: seq<Node>, ctx: Context, env: Env, fuel: nat)
    requires IsInclude(n) && Expand(n, ctx, false, env, fuel).Ok?
    requires AllIncludeFree(pre) && AllIncludeFree(post)
    ensures ExpandSeq(pre + [n] + post, ctx, false, env, fuel)
         == Ok(pre + Expand(n, ctx, false, env, fuel).value + post)
  {
    ExpandSeqUnchanged(pre, ctx, false, env, fuel);
    ExpandSeqUnchanged(post, ctx, false, env, fuel);
    SpliceAtIncludeSite(pre, n, post, ctx, false, env, fuel);
  }

  /** A one-node sequence expands to that node's replacement. */
  lemma SingletonExpansion(n: Node, ctx: Context, included: bool, env: Env, fuel: nat)
    ensures ExpandSeq([n], ctx, included, env, fuel) == Expand(n, ctx, included, env, fuel)
  {
    assert [n][1..] == [];
    var r := Expand(n, ctx, included, env, fuel);
    if r.Ok? {
      assert r.value + [] == r.value;
    }
  }

  /** The template is read, never rewritten: expanding the same include
      twice in a row yields the same replacement at both positions. */
  lemma RepeatedIncludeSameExpansion(n: Node, ctx: Context, included: bool, env: Env, fuel: nat)
    requires Expand(n, ctx, included, env, fuel).Ok?
    ensures var r := Expand(n, ctx, included, env, fuel).value;
            ExpandSeq([n, n], ctx, included, env, fuel) == Ok(r + r)
  {
    SingletonExpansion(n, ctx, included, env, fuel);
    ExpandSeqConcat([n], [n], ctx, included, env, fuel);
    assert [n] + [n] == [n, n];
  }

  /** An unregistered fragment yields the retryable outcome carrying the
      qualified id, before the site's parameters are even read. */
  lemma MissingFragmentDeferred(n: Node, ctx: Context, included: bool, env: Env, fuel: nat)
    requires IsInclude(n) && n.Element? && "refid" in n.attrs
    requires FragmentKey(n.attrs["refid"], ctx, env) !in env.fragments
    ensures Expand(n, ctx, included, env, fuel) == Deferred(FragmentKey(n.attrs["refid"], ctx, env))
  {
  }

  /** A node named "include" that is not an element (a processing
      instruction) has no attributes to read its `refid` from: fatal. */
  lemma NonElementIncludeFails(n: Node, ctx: Context, included: bool, env: Env, fuel: nat)
    requires IsInclude(n) && !n.Element?
    ensures Expand(n, ctx, included, env, fuel) == Fatal(MissingAttribute(IncludeTag, "refid"))
  {
  }

  /** Two complete declarations of one name at a site whose fragment is
      registered always fail with the fatal duplicate error naming a name
      declared twice, whatever the values. */
  lemma DuplicateParameterFatal(n: Node, ctx: Context, included: bool, env: Env, fuel: nat)
    requires IsInclude(n) && n.Element? && "refid" in n.attrs
    requires FragmentKey(n.attrs["refid"], ctx, env) in env.fragments
    requires WellFormedSite(n.children) && !NamesDistinct(Declarations(n.children))
    ensures var r := Expand(n, ctx, included, env, fuel);
            r.Fatal? && r.error.DuplicateVariable? && DeclaredTwice(Declarations(n.children), r.error.variable)
  {
    VariablesContextSpec(n.children, ctx, env.subst);
  }

  /** The recursion bound only ever cuts expansion short: a result that is
      not `DepthExceeded` is the same with any larger bound. */
  lemma {:induction false} ExpandFuelMonotone(n: Node, ctx: Context, included: bool, env: Env, fuel: nat, more: nat)
    requires fuel <= more
    requires Expand(n, ctx, included, env, fuel) != Fatal(DepthExceeded)
    ensures Expand(n, ctx, included, env, more) == Expand(n, ctx, included, env, fuel)
    decreases fuel, n
  {
    if IsInclude(n) {
      if n.Element? && "refid" in n.attrs {
        var key := FragmentKey(n.attrs["refid"], ctx, env);
        var site := VariablesContext(n.children, ctx, env.subst);
        if key in env.fragments && site.Ok? {
          ExpandSeqFuelMonotone(FragmentBody(env.fragments[key]), site.value, true, env, fuel - 1, more - 1);
        }
      }
    } else {
      match n
      case Element(_, _, kids) =>
        ExpandSeqFuelMonotone(kids, ctx, included, env, fuel, more);
      case _ =>
    }
  }

  lemma {:induction false} ExpandSeqFuelMonotone(ns: seq<Node>, ctx: Context, included: bool, env: Env, fuel: nat, more: nat)
    requires fuel <= more
    requires ExpandSeq(ns, ctx, included, env, fuel) != Fatal(DepthExceeded)
    ensures ExpandSeq(ns, ctx, included, env, more) == ExpandSeq(ns, ctx, included, env, fuel)
    decreases fuel, ns
  {
    if ns != [] {
      ExpandFuelMonotone(ns[0], ctx, included, env, fuel, more);
      if Expand(ns[0], ctx, included, env, fuel).Ok? {
        ExpandSeqFuelMonotone(ns[1..], ctx, included, env, fuel, more);
      }
    }
  }

  /** A statement with no include anywhere is left exactly as it was. */
  lemma ApplyIncludesNoInclude(root: Node, configVars: Context, env: Env, fuel: nat)
    requires IncludeFree(root)
    ensures ApplyIncludes(root, configVars, env, fuel) == Ok([root])
  {
    ExpandUnchanged(root, configVars, false, env, fuel);
  }

  /** Running the entry point again on a successfully expanded statement
      changes nothing. */
  lemma ApplyIncludesIdempotent(root: Node, configVars: Context, env: Env, fuel: nat, again: nat)
    requires ApplyIncludes(root, configVars, env, fuel).Ok?
    ensures forall m <- ApplyIncludes(root, configVars, env, fuel).value ::
              ApplyIncludes(m, configVars, env, again) == Ok([m])
  {
    forall m <- ApplyIncludes(root, configVars, env, fuel).value
      ensures ApplyIncludes(m, configVars, env, again) == Ok([m])
    {
      ApplyIncludesNoInclude(m, configVars, env, again);
    }
  }

  /** A fragment that includes itself, whatever the registry, substitutor
      and qualifier: when the site names the same key in every context and
      its parameters are always valid, no recursion bound is ever enough. */
  lemma {:induction false} CyclicFragmentExhausts(site: Node, key: string, ctx: Context, included: bool, env: Env, fuel: nat)
    requires IsInclude(site) && site.Element? && "refid" in site.attrs
    requires key in env.fragments && FragmentBody(env.fragments[key]) == [site]
    requires forall c :: FragmentKey(site.attrs["refid"], c, env) == key
    requires forall c :: VariablesContext(site.children, c, env.subst).Ok?
    ensures Expand(site, ctx, included, env, fuel) == Fatal(DepthExceeded)
    decreases fuel
  {
    if fuel > 0 {
      var inner := VariablesContext(site.children, ctx, env.subst).value;
      CyclicFragmentExhausts(site, key, inner, true, env, fuel - 1);
      SingletonExpansion(site, inner, true, env, fuel - 1);
    }
  }

  /** One registry that meets the conditions above: identity substitution
      and qualification, and `<sql id="loop"><include refid="loop"/></sql>`. */
  function SelfIncludingEnv(): Env {
    Env(map["loop" := Element("sql", map[], [Element(IncludeTag, map["refid" := "loop"], [])])],
        (s: string, c: Context) => s,
        (s: string) => s)
  }

  lemma SelfIncludingEnvExhausts(ctx: Context, included: bool, fuel: nat)
    ensures Expand(Element(IncludeTag, map["refid" := "loop"], []), ctx, included, SelfIncludingEnv(), fuel)
         == Fatal(DepthExceeded)
  {
    var env := SelfIncludingEnv();
    var site := Element(IncludeTag, map["refid" := "loop"], []);
    forall c ensures VariablesContext(site.children, c, env.subst).Ok? {
      assert Params(site.children) == [];
    }
    CyclicFragmentExhausts(site, "loop", ctx, included, env, fuel);
  }
}
