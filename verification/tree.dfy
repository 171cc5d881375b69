/** The markup tree the transformer rewrites, as an immutable value.

    Elements carry a name, their attributes (a name-to-value map: attribute
    order carries no meaning) and an ordered sequence of children; text nodes
    carry their content; every other node kind (comments, CDATA sections,
    processing instructions) is kept as a leaf with its DOM node name
    ("#comment", "#cdata-section", or a processing instruction's target).
 */
module XmlTree {

  /** A variable context: the `java.util.Properties` used for placeholder substitution. */
  type Context = map<string, string>

  /** The placeholder substitutor (`PropertyParser.parse`): any total function
      of a text and a context. */
  type Substitutor = (string, Context) -> string

  datatype Node =
    | Element(name: string, attrs: map<string, string>, children: seq<Node>)
    | Text(content: string)
    | Other(name: string, content: string)

  const IncludeTag: string := "include"

  /** The DOM node name the transformer tests: the tag of an element, the
      fixed "#text" of a text node, and the stored name of any other node. */
  function NodeName(n: Node): string {
    match n
    case Text(_) => "#text"
    case _ => n.name
  }

  /** The node is treated as an inclusion site: its node name is "include".
      Besides `<include>` elements, a processing instruction `<?include …?>`
      qualifies too. */
  predicate IsInclude(n: Node) {
    NodeName(n) == IncludeTag
  }

  /** No inclusion site anywhere in the subtree rooted at `n`. */
  predicate IncludeFree(n: Node) {
    && !IsInclude(n)
    && match n
       case Element(_, _, kids) => forall k <- kids :: IncludeFree(k)
       case _ => true
  }

  /** No inclusion site anywhere in a sequence of subtrees. */
  predicate AllIncludeFree(ns: seq<Node>) {
    forall n <- ns :: IncludeFree(n)
  }

  /** Every attribute value substituted against `ctx`. */
  function SubstAttrs(attrs: map<string, string>, ctx: Context, subst: Substitutor): (r: map<string, string>)
    ensures r.Keys == attrs.Keys
  {
    map a | a in attrs :: subst(attrs[a], ctx)
  }

  /** Reference definition of in-fragment substitution: every text node and
      every attribute value of an include-free subtree substituted against
      `ctx`; other node kinds are left as they are. */
  function SubstTree(n: Node, ctx: Context, subst: Substitutor): Node {
    match n
    case Element(name, attrs, kids) => Element(name, SubstAttrs(attrs, ctx, subst), SubstSeq(kids, ctx, subst))
    case Text(s) => Text(subst(s, ctx))
    case Other(_, _) => n
  }

  /** `SubstTree` applied to each node of a sequence. */
  function SubstSeq(ns: seq<Node>, ctx: Context, subst: Substitutor): (r: seq<Node>)
    ensures |r| == |ns|
  {
    if ns == [] then [] else [SubstTree(ns[0], ctx, subst)] + SubstSeq(ns[1..], ctx, subst)
  }
}
