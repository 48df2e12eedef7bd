/** The output pages and how each is built: the interface page, the
    constructor page and one page per member, and the page sequence of a
    whole run. The page class, the markdown renderer and the source-page
    parser are collaborators whose code is not part of this model; they
    appear here as the fields of `Collaborators`. */
module Pages {
  import opened Text
  import opened ReaderComments
  import opened MemberList

  /** The parsed source page. A missing constructor or section is `None`;
      a section is the sequence of its lines. */
  datatype SourcePage = SourcePage(
    interfaceText: string,
    constructorText: Option<string>,
    events: Option<seq<string>>,
    methods: Option<seq<string>>,
    properties: Option<seq<string>>)

  /** The collaborators of the generator, as functions whose bodies are not
      modelled: the markdown renderer, the source-page parser, the page
      class's template loading, text operations and output directory, and
      three fixed boilerplate blocks. */
  datatype Collaborators = Collaborators(
    parse: string -> SourcePage,
    render: string -> string,
    template: (string, string) -> string,
    shortName: (string, string) -> string,
    dirPath: Page -> string,
    replaceContent: (string, string) -> string,
    append: (string, string) -> string,
    inject: (string, string, string) -> string,
    replaceString: (string, string, string) -> string,
    headerMacros: string,
    specTable: string,
    compatTable: string)

  /** One output page: the name and kind it was created with, and its text. */
  datatype Page = Page(name: string, kind: string, text: string)

  /** The three kinds of member list, by the type string the generator
      passes for each. */
  datatype MemberType = EventHandler | Method | Property

  function TypeName(t: MemberType): string
  {
    match t
    case EventHandler => "EventHandler"
    case Method => "method"
    case Property => "property"
  }

  /** The page kind of a member page. */
  function PageKind(t: MemberType): string
  {
    match t
    case EventHandler => "eventhandler"
    case Method => "method"
    case Property => "property"
  }

  /** A member page's kind is its lower-cased type string, and none is the
      kind of the interface or the constructor page. */
  lemma PageKindIsLowerType(t: MemberType)
    ensures PageKind(t) == Lower(TypeName(t))
    ensures PageKind(t) != "interface" && PageKind(t) != "constructor"
  {
    match t
    case EventHandler => LowerIs("EventHandler", "eventhandler");
    case Method => LowerIs("method", "method");
    case Property => LowerIs("property", "property");
  }

  /** The placeholder a member page's own short name replaces. */
  function Placeholder(t: MemberType): string
  {
    "[[" + TypeName(t) + "]]"
  }

  const MemberLinkToken: string := "[[memberLink]]"
  const SharedInterface: string := "[[shared:interface]]"

  /** The interface name: the source file name before its first ".md". */
  function InterfaceName(source: string): (name: string)
    ensures name <= source && !Includes(name, ".md")
    ensures name == source <==> !Includes(source, ".md")
    ensures name != source ==> OccursAt(source, ".md", |name|)
  {
    var parts := Split(source, ".md");
    SplitCount(source, ".md");
    SplitPartsClean(source, ".md");
    if Includes(source, ".md") then
      SplitHead(source, ".md");
      assert source[|parts[0]|..|parts[0]| + 3] == ".md";
      parts[0]
    else
      parts[0]
  }

  function InterfaceLink(iface: string): string
  {
    "#dom-" + Lower(iface)
  }

  function ConstructorLink(iface: string): string
  {
    "#dom-" + Lower(iface) + "-constructor"
  }

  function MemberLink(iface: string, shortName: string): string
  {
    "#dom-" + Lower(iface) + "-" + Lower(shortName)
  }

  /** The anchors of one interface: the interface link opens every other
      link, the constructor link differs from the interface link, and two
      member links coincide exactly when the short names agree up to case
      (a member page links like the constructor page only for a member
      whose name lower-cases to "constructor"). */
  lemma Links(iface: string, a: string, b: string)
    ensures InterfaceLink(iface) < ConstructorLink(iface)
    ensures InterfaceLink(iface) < MemberLink(iface, a)
    ensures MemberLink(iface, a) == MemberLink(iface, b) <==> Lower(a) == Lower(b)
    ensures MemberLink(iface, a) == ConstructorLink(iface) <==> Lower(a) == "constructor"
  {
    var head := "#dom-" + Lower(iface) + "-";
    assert ConstructorLink(iface) == head + "constructor";
    assert MemberLink(iface, a) == head + Lower(a);
    assert MemberLink(iface, b) == head + Lower(b);
    if MemberLink(iface, a) == MemberLink(iface, b) {
      assert Lower(a) == MemberLink(iface, a)[|head|..];
    }
    if MemberLink(iface, a) == ConstructorLink(iface) {
      assert Lower(a) == MemberLink(iface, a)[|head|..];
    }
  }

  /** Insertion of the header macros after the front matter: the first
      "---<" only. */
  function InsertHeaderMacros(html: string, macros: string): string
  {
    ReplaceFirst(html, "---<", "---\n" + macros + "\n\n<")
  }

  /** Rendered text without "---<" keeps its form. Otherwise the macros go in
      between the dashes and the "<" of the leftmost "---<" only, and the
      text on either side is kept. */
  lemma InsertHeaderMacrosSpec(html: string, macros: string)
    ensures !Includes(html, "---<") ==> InsertHeaderMacros(html, macros) == html
    ensures Includes(html, "---<") ==>
      exists i: nat :: LeftmostAt(html, "---<", i) &&
        InsertHeaderMacros(html, macros) == html[..i] + "---\n" + macros + "\n\n<" + html[i + 4..]
  {
    ReplaceFirstSpec(html, "---<", "---\n" + macros + "\n\n<");
  }

  /** The constructor summary wrapped in its paragraph. */
  function WrapSummary(text: string): string
  {
    "<p class=\"summary\">" + text + "</p>"
  }

  /** The wrapped constructor text can be read back out of its paragraph,
      so two constructor texts wrap alike only when they are equal. */
  lemma WrapSummaryUnwrap(a: string, b: string)
    ensures var w, n := WrapSummary(a), |"<p class=\"summary\">"|;
      |w| == n + |a| + 4 && w[n..n + |a|] == a
    ensures WrapSummary(a) == WrapSummary(b) <==> a == b
  {
    var open := "<p class=\"summary\">";
    var n := |open|;
    assert WrapSummary(a)[n..n + |a|] == a;
    if WrapSummary(a) == WrapSummary(b) {
      assert |a| == |b|;
      assert WrapSummary(b)[n..n + |b|] == b;
    }
  }

  // The page class's operations, each producing the page it leaves behind.

  function NewPage(env: Collaborators, name: string, kind: string): Page
  {
    Page(name, kind, env.template(name, kind))
  }

  function ShortName(env: Collaborators, p: Page): string
  {
    env.shortName(p.name, p.kind)
  }

  function ReplaceContent(env: Collaborators, p: Page, content: string): Page
  {
    p.(text := env.replaceContent(p.text, content))
  }

  function Append(env: Collaborators, p: Page, extra: string): Page
  {
    p.(text := env.append(p.text, extra))
  }

  function Inject(env: Collaborators, p: Page, content: string, slot: string): Page
  {
    p.(text := env.inject(p.text, content, slot))
  }

  function ReplaceString(env: Collaborators, p: Page, token: string, value: string): Page
  {
    p.(text := env.replaceString(p.text, token, value))
  }

  /** The interface page: reader comments stripped before rendering, header
      macros inserted, the page body replaced, the two tables appended and
      the member link set to the interface anchor. */
  function InterfacePage(env: Collaborators, iface: string, interfaceText: string): (p: Page)
    ensures p.name == iface && p.kind == "interface"
  {
    var html := InsertHeaderMacros(env.render(StripReaderComments(interfaceText)), env.headerMacros);
    var p := ReplaceContent(env, NewPage(env, iface, "interface"), html);
    var p := Append(env, Append(env, p, env.specTable), env.compatTable);
    ReplaceString(env, p, MemberLinkToken, InterfaceLink(iface))
  }

  /** The constructor page: the wrapped summary rendered into the Summary
      slot and the member link set to the constructor anchor. */
  function ConstructorPage(env: Collaborators, iface: string, constructorText: string): (p: Page)
    ensures p.name == iface && p.kind == "constructor"
  {
    var p := Inject(env, NewPage(env, iface, "constructor"), env.render(WrapSummary(constructorText)), "Summary");
    ReplaceString(env, p, MemberLinkToken, ConstructorLink(iface))
  }

  /** The page of one split entry: named after element 0, its rendered body
      (element 1) in the Summary slot, the type placeholder replaced by the
      page's short name and the member link set to the member's anchor. */
  function MemberPage(env: Collaborators, iface: string, t: MemberType, entry: seq<string>): (p: Page)
    requires |entry| >= 2
    ensures p.name == entry[0] && p.kind == PageKind(t)
  {
    var p := Inject(env, NewPage(env, entry[0], PageKind(t)), env.render(entry[1]), "Summary");
    var p := ReplaceString(env, p, Placeholder(t), ShortName(env, p));
    ReplaceString(env, p, MemberLinkToken, MemberLink(iface, ShortName(env, p)))
  }

  /** The pages of a list of entries, one per entry, in order. */
  function MemberPages(env: Collaborators, iface: string, t: MemberType, entries: seq<seq<string>>): (pages: seq<Page>)
    requires forall k :: 0 <= k < |entries| ==> |entries[k]| >= 2
    ensures |pages| == |entries|
    ensures forall k :: 0 <= k < |entries| ==> pages[k] == MemberPage(env, iface, t, entries[k])
  {
    if entries == [] then []
    else
      MemberPages(env, iface, t, entries[..|entries| - 1]) + [MemberPage(env, iface, t, entries[|entries| - 1])]
  }

  /** One more entry adds its page at the end. */
  lemma MemberPagesSnoc(env: Collaborators, iface: string, t: MemberType, entries: seq<seq<string>>, i: nat)
    requires forall k :: 0 <= k < |entries| ==> |entries[k]| >= 2
    requires i < |entries|
    ensures MemberPages(env, iface, t, entries[..i + 1])
      == MemberPages(env, iface, t, entries[..i]) + [MemberPage(env, iface, t, entries[i])]
  {
    assert entries[..i + 1][..i] == entries[..i];
  }

  /** A constructor page is made only for a constructor text that is there
      and not empty (JavaScript truthiness of a string). */
  predicate HasConstructor(src: SourcePage)
  {
    src.constructorText.Some? && src.constructorText.value != ""
  }

  /** The split entries of a section; a missing section has none. */
  function SectionEntries(section: Option<seq<string>>): (entries: seq<seq<string>>)
    ensures forall k :: 0 <= k < |entries| ==> |entries[k]| >= 2
  {
    if section.Some? then Members(section.value) else []
  }

  function SectionPages(env: Collaborators, iface: string, section: Option<seq<string>>, t: MemberType): (pages: seq<Page>)
    ensures |pages| == |SectionEntries(section)|
    ensures forall k :: 0 <= k < |pages| ==> pages[k] == MemberPage(env, iface, t, SectionEntries(section)[k])
  {
    MemberPages(env, iface, t, SectionEntries(section))
  }

  /** The constructor page, when there is one. */
  function ConstructorPages(env: Collaborators, iface: string, src: SourcePage): (pages: seq<Page>)
    ensures |pages| == if HasConstructor(src) then 1 else 0
  {
    if HasConstructor(src) then [ConstructorPage(env, iface, src.constructorText.value)] else []
  }

  /** Every page of a run before the shared substitution, in the order the
      generator pushes them. */
  function Assemble(env: Collaborators, iface: string, src: SourcePage): seq<Page>
  {
    [InterfacePage(env, iface, src.interfaceText)]
    + ConstructorPages(env, iface, src)
    + SectionPages(env, iface, src.events, EventHandler)
    + SectionPages(env, iface, src.methods, Method)
    + SectionPages(env, iface, src.properties, Property)
  }

  /** A run's first page is the interface page. */
  lemma AssembleFirst(env: Collaborators, iface: string, src: SourcePage)
    ensures |Assemble(env, iface, src)| >= 1
    ensures Assemble(env, iface, src)[0] == InterfacePage(env, iface, src.interfaceText)
  {
    var i := [InterfacePage(env, iface, src.interfaceText)];
    Blocks(i, ConstructorPages(env, iface, src), SectionPages(env, iface, src.events, EventHandler),
           SectionPages(env, iface, src.methods, Method), SectionPages(env, iface, src.properties, Property));
  }

  /** Where each of five consecutive blocks lands in their concatenation. */
  lemma Blocks(a: seq<Page>, b: seq<Page>, c: seq<Page>, d: seq<Page>, e: seq<Page>)
    ensures |a + b + c + d + e| == |a| + |b| + |c| + |d| + |e|
    ensures forall k :: 0 <= k < |a| ==> (a + b + c + d + e)[k] == a[k]
    ensures forall k :: 0 <= k < |b| ==> (a + b + c + d + e)[|a| + k] == b[k]
    ensures forall k :: 0 <= k < |c| ==> (a + b + c + d + e)[|a| + |b| + k] == c[k]
    ensures forall k :: 0 <= k < |d| ==> (a + b + c + d + e)[|a| + |b| + |c| + k] == d[k]
    ensures forall k :: 0 <= k < |e| ==> (a + b + c + d + e)[|a| + |b| + |c| + |d| + k] == e[k]
  {
  }

  /** The head of a run's pages: one page per member entry besides the
      interface page and the constructor page, the interface page first
      and the constructor page second exactly when there is a constructor
      text. */
  lemma AssembleHead(env: Collaborators, iface: string, src: SourcePage)
    ensures |Assemble(env, iface, src)| ==
      1 + (if HasConstructor(src) then 1 else 0) + |SectionEntries(src.events)|
        + |SectionEntries(src.methods)| + |SectionEntries(src.properties)|
    ensures Assemble(env, iface, src)[0] == InterfacePage(env, iface, src.interfaceText)
    ensures HasConstructor(src) ==>
      Assemble(env, iface, src)[1] == ConstructorPage(env, iface, src.constructorText.value)
  {
    var i := [InterfacePage(env, iface, src.interfaceText)];
    var cp := ConstructorPages(env, iface, src);
    var e := SectionPages(env, iface, src.events, EventHandler);
    var m := SectionPages(env, iface, src.methods, Method);
    var p := SectionPages(env, iface, src.properties, Property);
    assert Assemble(env, iface, src) == i + cp + e + m + p;
    Blocks(i, cp, e, m, p);
    var pages := Assemble(env, iface, src);
    assert pages[0] == i[0];
    if HasConstructor(src) {
      assert pages[1] == cp[0];
    }
  }

  /** `block` appears in `pages` as a contiguous run starting at `off`. */
  ghost predicate BlockAtOffset(pages: seq<Page>, off: nat, block: seq<Page>)
  {
    off + |block| <= |pages| && forall k :: 0 <= k < |block| ==> pages[off + k] == block[k]
  }

  /** The block `b` of `pages == front + b + back` sits at offset `off`,
      the length of `front`. */
  lemma BlockAt(pages: seq<Page>, front: seq<Page>, b: seq<Page>, back: seq<Page>, off: nat)
    requires pages == front + b + back && off == |front|
    ensures BlockAtOffset(pages, off, b)
  {
  }

  /** Right after the head come the event handler pages, in split order. */
  lemma AssembleEvents(env: Collaborators, iface: string, src: SourcePage)
    ensures BlockAtOffset(Assemble(env, iface, src), 1 + |ConstructorPages(env, iface, src)|,
      SectionPages(env, iface, src.events, EventHandler))
  {
    var i, cp := [InterfacePage(env, iface, src.interfaceText)], ConstructorPages(env, iface, src);
    var e, m, p := SectionPages(env, iface, src.events, EventHandler),
      SectionPages(env, iface, src.methods, Method), SectionPages(env, iface, src.properties, Property);
    assert Assemble(env, iface, src) == (i + cp) + e + (m + p);
    BlockAt(Assemble(env, iface, src), i + cp, e, m + p, 1 + |cp|);
  }

  /** After the event handler pages come the method pages, in split order. */
  lemma AssembleMethods(env: Collaborators, iface: string, src: SourcePage)
    ensures BlockAtOffset(Assemble(env, iface, src),
      1 + |ConstructorPages(env, iface, src)| + |SectionPages(env, iface, src.events, EventHandler)|,
      SectionPages(env, iface, src.methods, Method))
  {
    var i, cp := [InterfacePage(env, iface, src.interfaceText)], ConstructorPages(env, iface, src);
    var e, m, p := SectionPages(env, iface, src.events, EventHandler),
      SectionPages(env, iface, src.methods, Method), SectionPages(env, iface, src.properties, Property);
    assert Assemble(env, iface, src) == (i + cp + e) + m + p;
    BlockAt(Assemble(env, iface, src), i + cp + e, m, p, 1 + |cp| + |e|);
  }

  /** The final block `b` of `pages == front + b` is its tail. */
  lemma BlockIsTail(pages: seq<Page>, front: seq<Page>, b: seq<Page>)
    requires pages == front + b
    ensures |b| <= |pages| && pages[|pages| - |b|..] == b
  {
  }

  /** Last come the property pages, in split order, ending the list. */
  lemma AssembleProperties(env: Collaborators, iface: string, src: SourcePage)
    ensures var pages, properties := Assemble(env, iface, src), SectionPages(env, iface, src.properties, Property);
      |properties| <= |pages| && pages[|pages| - |properties|..] == properties
  {
    var i, cp := [InterfacePage(env, iface, src.interfaceText)], ConstructorPages(env, iface, src);
    var e, m, p := SectionPages(env, iface, src.events, EventHandler),
      SectionPages(env, iface, src.methods, Method), SectionPages(env, iface, src.properties, Property);
    BlockIsTail(Assemble(env, iface, src), i + cp + e + m, p);
  }

  /** No page of `pages` is an interface or a constructor page. */
  ghost predicate MemberKindsOnly(pages: seq<Page>)
  {
    forall k :: 0 <= k < |pages| ==> pages[k].kind != "interface" && pages[k].kind != "constructor"
  }

  /** Kinds in a run's page sequence, whatever its pages: an interface
      page, an optional constructor page, then member pages only. */
  lemma KindsBehindHead(head: seq<Page>, e: seq<Page>, m: seq<Page>, p: seq<Page>)
    requires 1 <= |head| <= 2 && head[0].kind == "interface"
    requires |head| == 2 ==> head[1].kind == "constructor"
    requires MemberKindsOnly(e) && MemberKindsOnly(m) && MemberKindsOnly(p)
    ensures forall k :: 0 <= k < |head + e + m + p| ==> ((head + e + m + p)[k].kind == "interface" <==> k == 0)
    ensures forall k :: 0 <= k < |head + e + m + p| ==>
      ((head + e + m + p)[k].kind == "constructor" <==> |head| == 2 && k == 1)
  {
    var s := head + e + m + p;
    assert forall k :: |head| <= k < |s| ==> s[k].kind != "interface" && s[k].kind != "constructor";
  }

  /** The pages of a section are all member pages. */
  lemma SectionKinds(env: Collaborators, iface: string, section: Option<seq<string>>, t: MemberType)
    ensures MemberKindsOnly(SectionPages(env, iface, section, t))
  {
    PageKindIsLowerType(t);
  }

  /** Exactly one page of a run is an interface page, the first. */
  lemma AssembleInterfaceKind(env: Collaborators, iface: string, src: SourcePage)
    ensures forall k :: 0 <= k < |Assemble(env, iface, src)| ==>
      (Assemble(env, iface, src)[k].kind == "interface" <==> k == 0)
  {
    var head := [InterfacePage(env, iface, src.interfaceText)] + ConstructorPages(env, iface, src);
    var e := SectionPages(env, iface, src.events, EventHandler);
    var m := SectionPages(env, iface, src.methods, Method);
    var p := SectionPages(env, iface, src.properties, Property);
    SectionKinds(env, iface, src.events, EventHandler);
    SectionKinds(env, iface, src.methods, Method);
    SectionKinds(env, iface, src.properties, Property);
    KindsBehindHead(head, e, m, p);
  }

  /** A run has a constructor page exactly when the source has a
      constructor text, and then only the second page. */
  lemma AssembleConstructorKind(env: Collaborators, iface: string, src: SourcePage)
    ensures forall k :: 0 <= k < |Assemble(env, iface, src)| ==>
      (Assemble(env, iface, src)[k].kind == "constructor" <==> HasConstructor(src) && k == 1)
  {
    var head := [InterfacePage(env, iface, src.interfaceText)] + ConstructorPages(env, iface, src);
    var e := SectionPages(env, iface, src.events, EventHandler);
    var m := SectionPages(env, iface, src.methods, Method);
    var p := SectionPages(env, iface, src.properties, Property);
    SectionKinds(env, iface, src.events, EventHandler);
    SectionKinds(env, iface, src.methods, Method);
    SectionKinds(env, iface, src.properties, Property);
    KindsBehindHead(head, e, m, p);
  }

  /** A source with only an interface text yields exactly one page, the
      interface page. */
  lemma OnlyInterface(env: Collaborators, iface: string, src: SourcePage)
    requires !HasConstructor(src)
    requires src.events.None? && src.methods.None? && src.properties.None?
    ensures Assemble(env, iface, src) == [InterfacePage(env, iface, src.interfaceText)]
  {
  }

  /** The shared-variable pass: `token` replaced by `value` in every page. */
  function SubstituteAll(env: Collaborators, pages: seq<Page>, token: string, value: string): (r: seq<Page>)
    ensures |r| == |pages|
    ensures forall k :: 0 <= k < |pages| ==> r[k] == ReplaceString(env, pages[k], token, value)
    ensures forall k :: 0 <= k < |pages| ==> r[k].name == pages[k].name && r[k].kind == pages[k].kind
  {
    if pages == [] then []
    else [ReplaceString(env, pages[0], token, value)] + SubstituteAll(env, pages[1..], token, value)
  }
}
