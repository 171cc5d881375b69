/** The `<include>` expander of a mapped statement.

    `Expand` visits one node and returns the nodes that take its place in its
    parent: an inclusion site is replaced by the children of its fragment,
    fully expanded in the site's own variable context; any other node is
    replaced by its single rewritten self. Children are expanded over a
    snapshot of the parent's child list and the results are concatenated.
 */
module IncludeTransformer {
  import opened Outcome
  import opened XmlTree

  /** What the transformer consults and never changes: the registered
      `<sql>` fragment templates keyed by fully qualified id, the placeholder
      substitutor, and the namespace qualifier of the current mapper
      (`applyCurrentNamespace(refid, true)`). */
  datatype Env = Env(fragments: map<string, Node>, subst: Substitutor, qualify: string -> string)

  /** Placeholders in text and attribute values are replaced only inside an
      inclusion and only when the context has at least one variable. */
  predicate SubstitutionOn(included: bool, ctx: Context) {
    included && ctx != map[]
  }

  /** Reads a required attribute; an absent one is fatal (the source
      dereferences the missing attribute node, or the missing attribute map
      of a node that is not an element). */
  function StringAttribute(n: Node, attr: string): (r: Result<string>)
    ensures r.Ok? <==> n.Element? && attr in n.attrs
    ensures r.Ok? ==> r.value == n.attrs[attr]
    ensures !r.Ok? ==> r == Fatal(MissingAttribute(NodeName(n), attr))
  {
    if n.Element? && attr in n.attrs then Ok(n.attrs[attr]) else Fatal(MissingAttribute(NodeName(n), attr))
  }

  /** The registry key an include's `refid` names in the context `ctx`:
      placeholders substituted first, then namespace-qualified. */
  function FragmentKey(refid: string, ctx: Context, env: Env): string {
    env.qualify(env.subst(refid, ctx))
  }

  /** Looks up the fragment a `refid` names. A miss is the retryable outcome
      and carries the qualified id; a hit is the registered template itself
      (an immutable value, so the copy the caller rewrites is a clone). */
  function FindSqlFragment(refid: string, ctx: Context, env: Env): (r: Result<Node>)
    ensures r.Fatal? == false
    ensures r.Ok? <==> FragmentKey(refid, ctx, env) in env.fragments
    ensures r.Ok? ==> r.value == env.fragments[FragmentKey(refid, ctx, env)]
    ensures r.Deferred? ==> r.refid == FragmentKey(refid, ctx, env) && r.refid !in env.fragments
  {
    var key := FragmentKey(refid, ctx, env);
    if key in env.fragments then Ok(env.fragments[key]) else Deferred(key)
  }

  /** The parameter declarations of an include site: its element children,
      whatever their tag. Text and other children are ignored. */
  function Params(children: seq<Node>): (r: seq<Node>)
    ensures forall p <- r :: p.Element?
    ensures forall p <- r :: p in children
    ensures forall c <- children :: c.Element? ==> c in r
  {
    if children == [] then []
    else if children[0].Element? then [children[0]] + Params(children[1..])
    else Params(children[1..])
  }

  /** Collects the declarations of `children` left to right into `declared`.
      Each value is substituted against `inherited` alone; a name declared a
      second time is fatal even when both values agree. */
  function DeclareAll(children: seq<Node>, declared: Context, inherited: Context, subst: Substitutor): (r: Result<Context>)
    ensures r.Ok? ==> declared.Keys <= r.value.Keys
    ensures r.Ok? ==> forall k <- declared.Keys :: r.value[k] == declared[k]
    ensures r.Deferred? == false
    ensures Params(children) == [] ==> r == Ok(declared)
  {
    if children == [] then Ok(declared)
    else if !children[0].Element? then DeclareAll(children[1..], declared, inherited, subst)
    else
      var p := children[0];
      var name :- StringAttribute(p, "name");
      var raw :- StringAttribute(p, "value");
      if name in declared then Fatal(DuplicateVariable(name))
      else DeclareAll(children[1..], declared[name := subst(raw, inherited)], inherited, subst)
  }

  /** The context an include site hands to its fragment: the inherited
      context unchanged when the site declares nothing, otherwise the
      inherited context overlaid by the site's declarations. */
  function VariablesContext(children: seq<Node>, inherited: Context, subst: Substitutor): (r: Result<Context>)
    ensures Params(children) == [] ==> r == Ok(inherited)
    ensures r.Ok? ==> inherited.Keys <= r.value.Keys
    ensures r.Deferred? == false
  {
    var declared :- DeclareAll(children, map[], inherited, subst);
    if Params(children) == [] then Ok(inherited) else Ok(inherited + declared)
  }

  /** The children of a fragment template that replace an include site; the
      `<sql>` wrapper element itself is discarded. */
  function FragmentBody(template: Node): seq<Node> {
    if template.Element? then template.children else []
  }

  /** Expands one node in context `ctx`; `included` tells whether the node
      lies inside an inclusion. The result replaces `n` in its parent. Each
      expansion of a fragment spends one unit of `fuel`, which bounds the
      otherwise unbounded recursion on cyclic fragment references. */
  function Expand(n: Node, ctx: Context, included: bool, env: Env, fuel: nat): (r: Result<seq<Node>>)
    ensures r.Ok? ==> AllIncludeFree(r.value)
    ensures r.Ok? && !IsInclude(n) ==> |r.value| == 1
    ensures r.Deferred? ==> r.refid !in env.fragments
    decreases fuel, n
  {
    if IsInclude(n) then
      var refid :- StringAttribute(n, "refid");
      var template :- FindSqlFragment(refid, ctx, env);
      var siteCtx :- VariablesContext(n.children, ctx, env.subst);
      if fuel == 0 then Fatal(DepthExceeded)
      else ExpandSeq(FragmentBody(template), siteCtx, true, env, fuel - 1)
    else
      match n
      case Element(name, attrs, kids) =>
        var kids' :- ExpandSeq(kids, ctx, included, env, fuel);
        var attrs' := if SubstitutionOn(included, ctx) then SubstAttrs(attrs, ctx, env.subst) else attrs;
        Ok([Element(name, attrs', kids')])
      case Text(s) =>
        Ok([if SubstitutionOn(included, ctx) then Text(env.subst(s, ctx)) else n])
      case Other(_, _) =>
        Ok([n])
  }

  /** Expands a sibling sequence in document order and concatenates the
      replacements; the first failure aborts the whole sequence. */
  function ExpandSeq(ns: seq<Node>, ctx: Context, included: bool, env: Env, fuel: nat): (r: Result<seq<Node>>)
    ensures r.Ok? ==> AllIncludeFree(r.value)
    ensures r.Deferred? ==> r.refid !in env.fragments
    decreases fuel, ns
  {
    if ns == [] then Ok([])
    else
      var head :- Expand(ns[0], ctx, included, env, fuel);
      var tail :- ExpandSeq(ns[1..], ctx, included, env, fuel);
      Ok(head + tail)
  }

  /** Entry point for one statement: the seed context is the configuration's
      global variables (an absent variable set is the empty map) and the
      statement itself is not inside an inclusion. */
  function ApplyIncludes(root: Node, configVars: Context, env: Env, fuel: nat): (r: Result<seq<Node>>)
    ensures r.Ok? ==> AllIncludeFree(r.value)
    ensures r.Ok? && !IsInclude(root) ==> |r.value| == 1
    ensures r.Deferred? ==> r.refid !in env.fragments
  {
    Expand(root, configVars, false, env, fuel)
  }
}
