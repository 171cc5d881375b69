# MyBatis `<include>` expansion, modelled in Dafny

This project models `XMLIncludeTransformer`, the part of the MyBatis XML
mapper builder that resolves `<include refid="…">` elements in a mapped
statement. A statement (`<select>`, `<update>`, …) may include reusable
`<sql>` fragments. Each include site is replaced, at its own position among
its siblings, by the children of the fragment it names. Before that splice,
the fragment is expanded in its own scope: its nested includes are resolved,
and `${…}` placeholders in its text and attribute values are substituted.
Substitution uses a variable context that the site builds from its own
`<property name="…" value="…"/>` children on top of the context it inherits.

Files:

- `outcome.dfy` (`Outcome`): the three outcomes. `Ok` is success.
  `Deferred(id)` is the retryable `IncompleteElementException` for a fragment
  that is not registered yet. `Fatal(error)` covers the fatal errors: a
  duplicate variable (`BuilderException`), a missing required attribute, and
  running out of the recursion bound.
- `tree.dfy` (`XmlTree`): the immutable node tree. It also holds
  `SubstTree`, a reference definition of in-fragment substitution. A node
  counts as an include site when its DOM node name is `include`, as in the
  source. Besides `<include>` elements, this covers a processing instruction
  `<?include …?>`.
- `transformer.dfy` (`IncludeTransformer`): the operations.
  `StringAttribute`, `FindSqlFragment`, `DeclareAll` and `VariablesContext`
  model `getStringAttribute`, `findSqlFragment` and `getVariablesContext`.
  `Expand` and `ExpandSeq` model the private, recursive `applyIncludes`.
  `ApplyIncludes` models the public entry point.
- `variables_context.dfy` (`VariablesContextFacts`): what a derived context
  holds, and when deriving one fails.
- `expansion.dfy` (`ExpansionFacts`): splice order, inside-out expansion,
  substitution gating, the outcome of each failure, the recursion bound.
- `live_children.dfy` (`LiveChildList`): the source's child loop as written
  (see Findings).

Collaborators the transformer calls but that are not part of this model are
parameters, bundled in `IncludeTransformer.Env`:

- `PropertyParser.parse` is an arbitrary total function `subst(text, context)`.
- `MapperBuilderAssistant.applyCurrentNamespace(refid, true)` is an arbitrary
  total function `qualify(refid)`.
- The fragment registry `Configuration.getSqlFragments()` is a
  `map<string, Node>`.

The Java code mutates a DOM in place. The model instead returns, for each
visited node, the sequence of nodes that takes its place in the parent: an
include site yields its fragment's expanded children, and any other node
yields its one rewritten self. Children are expanded over a snapshot of the
parent's child list, and the replacements are concatenated. The Java code
iterates the live child list instead; "## Findings" shows where that
differs.

Cyclic fragment references are not detected by the source; they recurse
until the stack overflows. The model bounds recursion with a `fuel`
parameter. Each fragment expansion spends one unit. Running out gives
`Fatal(DepthExceeded)`, and `ExpandFuelMonotone` shows that this is the only
effect of the bound.

Three places where the model follows the code as written:

- The child loop iterates a live list, not a snapshot. The main model uses a
  snapshot; `LiveChildList` models the loop as written.
- A missing `refid`, `name` or `value` attribute is a null dereference in
  the code, not a dedicated error. It is modelled as `Fatal(MissingAttribute)`.
- The fragment lookup happens before the site's parameters are read. So a
  missing fragment is reported as `Deferred` even when the site's parameters
  are invalid.

## Model

| member | source | states |
|---|---|---|
| `IncludeTransformer.StringAttribute` | src/main/java/org/apache/ibatis/builder/xml/XMLIncludeTransformer.java:140-142 | Succeeds exactly when the node is an element carrying the attribute, with its value. Otherwise it is a fatal missing-attribute error naming the node and attribute; a non-element has no attribute map at all. |
| `IncludeTransformer.FindSqlFragment` | src/main/java/org/apache/ibatis/builder/xml/XMLIncludeTransformer.java:121-130 | The lookup key is the `refid` substituted in the current context and then namespace-qualified. On a hit it returns the registered template. A miss is never fatal: it is `Deferred` carrying the qualified key, which is absent from the registry. |
| `IncludeTransformer.Params` | src/main/java/org/apache/ibatis/builder/xml/XMLIncludeTransformer.java:153-157 | The site's declarations are exactly its element children, whatever their tag; text and other children are ignored. |
| `IncludeTransformer.DeclareAll` | src/main/java/org/apache/ibatis/builder/xml/XMLIncludeTransformer.java:152-168 | Collecting declarations never defers. It keeps what was already declared. With no element children it succeeds with nothing added. |
| `IncludeTransformer.VariablesContext` | src/main/java/org/apache/ibatis/builder/xml/XMLIncludeTransformer.java:151-177 | With no element children, the inherited context is returned unchanged. Any success keeps every inherited key. Deriving a context never defers. |
| `IncludeTransformer.Expand` | src/main/java/org/apache/ibatis/builder/xml/XMLIncludeTransformer.java:62-113 | A successful expansion leaves no include anywhere in its replacement. A non-include node is replaced by exactly one node. A deferral names a key missing from the registry, even from deep inside nested fragments. |
| `IncludeTransformer.ExpandSeq` | src/main/java/org/apache/ibatis/builder/xml/XMLIncludeTransformer.java:100-104 | Expanded children contain no include at any depth. A deferral names an unregistered key. |
| `IncludeTransformer.ApplyIncludes` | src/main/java/org/apache/ibatis/builder/xml/XMLIncludeTransformer.java:46-53 | From the configuration variables and outside any inclusion: on success the statement holds no include. A non-include statement stays one node. Deferral names an unregistered key. |
| `VariablesContextFacts.DeclareAllFailure` | src/main/java/org/apache/ibatis/builder/xml/XMLIncludeTransformer.java:158-166 | When all declarations are complete, the only failure is the fatal duplicate error. It names a variable declared twice, or one already declared. |
| `VariablesContextFacts.DeclareAllSucceeds` | src/main/java/org/apache/ibatis/builder/xml/XMLIncludeTransformer.java:161-166 | When all declarations are complete, collecting succeeds exactly when the names are pairwise distinct and new. |
| `VariablesContextFacts.DeclareAllContents` | src/main/java/org/apache/ibatis/builder/xml/XMLIncludeTransformer.java:158-164 | A successful collection adds exactly the declared names. Each maps to its raw value substituted against the inherited context. |
| `VariablesContextFacts.VariablesContextSpec` | src/main/java/org/apache/ibatis/builder/xml/XMLIncludeTransformer.java:151-177 | The derived context exists exactly when no name repeats; a repeat is fatal whatever the values. Its keys are the inherited ones plus the declared ones, and declarations win. Each declared value is substituted against the inherited context only. Inherited keys that are not redeclared keep their value. |
| `VariablesContextFacts.MalformedSiteFails` | src/main/java/org/apache/ibatis/builder/xml/XMLIncludeTransformer.java:154-160 | An element child lacking `name` or `value` makes the site fail fatally. |
| `ExpansionFacts.ExpandSeqConcat` | src/main/java/org/apache/ibatis/builder/xml/XMLIncludeTransformer.java:101-104 | Expanding concatenated siblings expands each part independently in the parent's context. The results are joined in order, and the first failure wins. |
| `ExpansionFacts.SpliceAtIncludeSite` | src/main/java/org/apache/ibatis/builder/xml/XMLIncludeTransformer.java:77-85 | An include among siblings is replaced at its own position by its expansion, in order. Siblings before and after are expanded on their own, in the parent's context. |
| `ExpansionFacts.SpliceKeepsSiblings` | src/main/java/org/apache/ibatis/builder/xml/XMLIncludeTransformer.java:77-85 | Outside an inclusion, include-free siblings before and after the site come out exactly as they were, around the site's replacement. |
| `ExpansionFacts.NestedIncludeExpansion` | src/main/java/org/apache/ibatis/builder/xml/XMLIncludeTransformer.java:66-70 | Inside-out over two levels. An outer fragment holds an inner site between include-free siblings. The inner fragment comes out substituted in the context the inner site derives from the outer site's context, and that context keeps every key of the outer one. The outer fragment's own nodes are substituted in the outer context. Everything is spliced in order. |
| `ExpansionFacts.NonElementIncludeFails` | src/main/java/org/apache/ibatis/builder/xml/XMLIncludeTransformer.java:64-66 | A node named `include` that is not an element, such as a processing instruction, fails fatally: it has no `refid` to read. |
| `ExpansionFacts.FragmentSubstitutedInSiteContext` | src/main/java/org/apache/ibatis/builder/xml/XMLIncludeTransformer.java:66-70 | For an include-free fragment body, the result is the body with the site's context substituted into every text and attribute value. It is the body verbatim when that context is empty. |
| `ExpansionFacts.ExpandUnchanged` | src/main/java/org/apache/ibatis/builder/xml/XMLIncludeTransformer.java:86-112 | An include-free subtree that is outside an inclusion, or in an empty context, is returned exactly as it was. |
| `ExpansionFacts.ExpandSeqUnchanged` | src/main/java/org/apache/ibatis/builder/xml/XMLIncludeTransformer.java:100-104 | Include-free children are returned as they were when substitution is off. |
| `ExpansionFacts.ExpandSubstitutes` | src/main/java/org/apache/ibatis/builder/xml/XMLIncludeTransformer.java:90-111 | Inside an inclusion with a non-empty context, an include-free subtree gets every text and attribute value substituted. Other node kinds are untouched (agrees with `SubstTree`). |
| `ExpansionFacts.ExpandSeqSubstitutes` | src/main/java/org/apache/ibatis/builder/xml/XMLIncludeTransformer.java:100-111 | The same for a sequence of include-free children. |
| `ExpansionFacts.RepeatedIncludeSameExpansion` | src/main/java/org/apache/ibatis/builder/xml/XMLIncludeTransformer.java:126-127 | The template is cloned, never rewritten: the same include twice yields the same replacement at both positions. |
| `ExpansionFacts.MissingFragmentDeferred` | src/main/java/org/apache/ibatis/builder/xml/XMLIncludeTransformer.java:121-130 | A site naming an unregistered fragment defers with the qualified key. This holds whatever its parameters and however much recursion bound is left. |
| `ExpansionFacts.DuplicateParameterFatal` | src/main/java/org/apache/ibatis/builder/xml/XMLIncludeTransformer.java:161-166 | At a site whose fragment exists, two complete declarations of one name always fail fatally with a duplicate error naming a twice-declared name, even when the values agree. |
| `ExpansionFacts.ExpandFuelMonotone` | src/main/java/org/apache/ibatis/builder/xml/XMLIncludeTransformer.java:66-70 | Any result other than `DepthExceeded` is unchanged by a larger recursion bound. |
| `ExpansionFacts.ExpandSeqFuelMonotone` | src/main/java/org/apache/ibatis/builder/xml/XMLIncludeTransformer.java:101-104 | The same for a sibling sequence. |
| `ExpansionFacts.ApplyIncludesNoInclude` | src/main/java/org/apache/ibatis/builder/xml/XMLIncludeTransformer.java:46-53 | A statement with no include anywhere is left exactly as it was: text and attributes verbatim, comments untouched. |
| `ExpansionFacts.ApplyIncludesIdempotent` | src/main/java/org/apache/ibatis/builder/xml/XMLIncludeTransformer.java:46-53 | Running the entry point again on an expanded statement changes nothing. |
| `ExpansionFacts.CyclicFragmentExhausts` | src/main/java/org/apache/ibatis/builder/xml/XMLIncludeTransformer.java:66-70 | For any registry, substitutor and qualifier: a site whose fragment consists of that same site exhausts every recursion bound. The site must name the same key in every context and have valid parameters. |
| `LiveChildList.LiveChildren` | src/main/java/org/apache/ibatis/builder/xml/XMLIncludeTransformer.java:101-104 | The loop as written, on a live child list. Positions already passed are never changed again. |
| `LiveChildList.EmptyFragmentSkipsSibling` | src/main/java/org/apache/ibatis/builder/xml/XMLIncludeTransformer.java:101-104 | An include right after a site whose fragment is empty is never visited by the live loop and survives. The snapshot iteration expands it. |
| `LiveChildList.SplicedNodesRevisited` | src/main/java/org/apache/ibatis/builder/xml/XMLIncludeTransformer.java:101-111 | Inside an inclusion, the live loop visits the second node of a two-node fragment again and substitutes its text twice. The snapshot iteration substitutes it once. |

## Findings

| source | as written | input that shows it | evidently intended | confidence | as-written member | corrected member |
|---|---|---|---|---|---|---|
| src/main/java/org/apache/ibatis/builder/xml/XMLIncludeTransformer.java:101-104 | The loop indexes the live child list and advances by one after each child. Splicing an include site removes one node and inserts as many as the fragment has children. | Registry `empty` = `<sql/>`, `text` = `<sql>X</sql>`; children `<include refid="empty"/><include refid="text"/>` with no whitespace between them. After the first site is removed, the second moves to index 0 and the loop moves to index 1, so the second include is never expanded. | Every child visited exactly once, so that no `<include>` survives expansion. | medium, not executed | `LiveChildList.LiveChildren`, `LiveChildList.EmptyFragmentSkipsSibling` | `IncludeTransformer.ExpandSeq` (include-free result), `ExpansionFacts.ExpandSeqConcat` |
| src/main/java/org/apache/ibatis/builder/xml/XMLIncludeTransformer.java:101-111 | The same loop visits again every node after the first one that a fragment of several children splices in. Inside an inclusion with a non-empty context, those nodes' text is substituted a second time, in the caller's context. | Registry `two` = `<sql>` with text children `a` and `b`, inside an inclusion, where substituting `b` gives `c` and substituting `c` gives `d`. The live loop yields `a`, `d`; substituting once yields `a`, `c`. | Every spliced node substituted exactly once, in the context of the site that included it. | low, not executed | `LiveChildList.LiveChildren`, `LiveChildList.SplicedNodesRevisited` | `IncludeTransformer.ExpandSeq`, `ExpansionFacts.FragmentSubstitutedInSiteContext` |

## Left out

- Placeholder parsing (`PropertyParser.parse`): any total function. The `${…}` syntax and the missing-key policy are not modelled.
- Namespace qualification (`applyCurrentNamespace`) and the `StrictMap` lookup: a total function and a plain map. Their own errors (an ambiguous short id, a missing current namespace) are not modelled. Only "found / not found" is.
- Owner documents and `importNode`: in a value model a node has no owner, so importing is the identity. Likewise `cloneNode(true)`: a template value cannot be changed by expanding it.
- Java null dereferences on a missing `refid`, `name` or `value` attribute: modelled as `Fatal(MissingAttribute)`, not as a `NullPointerException`.
- Stack overflow on cyclic fragment references: replaced by the `fuel` bound and `Fatal(DepthExceeded)`.
- A registered template that is not an element: its body is taken as empty. The registry only ever holds `<sql>` elements. Substitution into the discarded `<sql>` wrapper's own attributes is not modelled, because the wrapper never reaches the result.
- The live child-list iteration is replaced by snapshot iteration in the main model. `LiveChildren` models the loop over one level only; the children below each visited node are expanded with the snapshot iteration.
- `Properties` defaults, non-string values, and hash ordering: a context is a `map<string, string>`. An absent configuration variable set (`null`) is the empty map.
- In-place mutation: the result is returned as the nodes that replace the visited node, not written into a parent. On failure no partial tree exists; the source leaves a partly rewritten DOM that callers discard.
