/** The generator object: it parses one source page, builds its output pages
    one step at a time into its page list, substitutes the shared interface
    variable into every page and writes them all out. */
module Generation {
  import opened Text
  import opened ReaderComments
  import opened MemberList
  import opened Pages

  /** The directory the source file name is read relative to. */
  const SourceRoot: string := "content/en-US/api/"

  const WrittenHeader: string := "\nNew files written to:\n\t"

  /** The text logged after writing, naming the directory of the first page. */
  function WrittenMessage(env: Collaborators, first: Page): string
  {
    WrittenHeader + env.dirPath(first)
  }

  /** The logged text is the fixed header followed by the directory, so two
      messages agree exactly when the directories do. */
  lemma WrittenMessageNames(env: Collaborators, a: Page, b: Page)
    ensures var m := WrittenMessage(env, a);
      |WrittenHeader| <= |m| && m[..|WrittenHeader|] == WrittenHeader && m[|WrittenHeader|..] == env.dirPath(a)
    ensures WrittenMessage(env, a) == WrittenMessage(env, b) <==> env.dirPath(a) == env.dirPath(b)
  {
    var n := |WrittenHeader|;
    assert WrittenMessage(env, a)[n..] == env.dirPath(a);
    assert WrittenMessage(env, b)[n..] == env.dirPath(b);
  }

  lemma ConcatAssoc(o: seq<Page>, a: seq<Page>, b: seq<Page>, c: seq<Page>, d: seq<Page>, e: seq<Page>)
    ensures o + a + b + c + d + e == o + (a + b + c + d + e)
  {
  }

  class Generator {
    const env: Collaborators
    const sourcePage: SourcePage
    const interfaceName: string
    var pages: seq<Page>

    /** A generator for the source file `source`: its parsed page, its
        interface name and an empty page list. */
    constructor (env: Collaborators, source: string)
      ensures this.env == env
      ensures sourcePage == env.parse(SourceRoot + source)
      ensures interfaceName == InterfaceName(source)
      ensures pages == []
    {
      this.env := env;
      sourcePage := env.parse(SourceRoot + source);
      pages := [];
      interfaceName := Split(source, ".md")[0];
    }

    /** `generate`: all pages of the source in order, then the shared
        interface variable replaced in each, then every page written. */
    method Generate() returns (written: seq<Page>, message: Option<string>)
      modifies this
      ensures pages == SubstituteAll(env, old(pages) + Assemble(env, interfaceName, sourcePage),
                                     SharedInterface, interfaceName)
      ensures written == pages
      ensures |pages| >= 1 && message == Some(WrittenMessage(env, pages[0]))
      ensures old(pages) == [] ==>
        pages[0] == ReplaceString(env, InterfacePage(env, interfaceName, sourcePage.interfaceText),
                                  SharedInterface, interfaceName)
    {
      ghost var before := pages;
      MakeInterface();
      ghost var i := pages[|before|..];
      MakeConstructor();
      MakeEvents();
      MakeMethods();
      MakeProperties();
      ConcatAssoc(before, i, ConstructorPages(env, interfaceName, sourcePage),
        SectionPages(env, interfaceName, sourcePage.events, EventHandler),
        SectionPages(env, interfaceName, sourcePage.methods, Method),
        SectionPages(env, interfaceName, sourcePage.properties, Property));
      assert pages == before + Assemble(env, interfaceName, sourcePage);
      ReplaceVariable(SharedInterface, interfaceName);
      AssembleFirst(env, interfaceName, sourcePage);
      written, message := WriteContent();
    }

    /** `_replaceVariable`: `variable` replaced by `value` in every page, in
        place; nothing is added, dropped or reordered. */
    method ReplaceVariable(variable: string, value: string)
      modifies this
      ensures pages == SubstituteAll(env, old(pages), variable, value)
    {
      ghost var original := pages;
      var i := 0;
      while i < |pages|
        invariant 0 <= i <= |pages| == |original|
        invariant forall k :: 0 <= k < i ==> pages[k] == ReplaceString(env, original[k], variable, value)
        invariant forall k :: i <= k < |pages| ==> pages[k] == original[k]
      {
        pages := pages[i := ReplaceString(env, pages[i], variable, value)];
        i := i + 1;
      }
    }

    /** `_writeContent`: every page is written, in order, and the directory
        of the first page is logged. With no page, reading the first page's
        directory fails after the (empty) write loop, and there is no
        message. */
    method WriteContent() returns (written: seq<Page>, message: Option<string>)
      ensures written == pages
      ensures message.None? <==> pages == []
      ensures pages != [] ==> message == Some(WrittenMessage(env, pages[0]))
    {
      written := [];
      var i := 0;
      while i < |pages|
        invariant 0 <= i <= |pages|
        invariant written == pages[..i]
      {
        written := written + [pages[i]];
        i := i + 1;
      }
      if pages == [] {
        message := None;
      } else {
        message := Some(WrittenMessage(env, pages[0]));
      }
    }

    /** `_makeInterface`: the interface page is pushed. */
    method MakeInterface()
      modifies this
      ensures pages == old(pages) + [InterfacePage(env, interfaceName, sourcePage.interfaceText)]
    {
      var interfaceText := sourcePage.interfaceText;
      interfaceText := StripReaderComments(interfaceText);
      interfaceText := env.render(interfaceText);
      interfaceText := InsertHeaderMacros(interfaceText, env.headerMacros);
      var interfacePage := NewPage(env, interfaceName, "interface");
      interfacePage := ReplaceContent(env, interfacePage, interfaceText);
      interfacePage := Append(env, interfacePage, env.specTable);
      interfacePage := Append(env, interfacePage, env.compatTable);
      var newLink := InterfaceLink(interfaceName);
      interfacePage := ReplaceString(env, interfacePage, MemberLinkToken, newLink);
      pages := pages + [interfacePage];
    }

    /** `_makeConstructor`: the constructor page is pushed when the source
        has a non-empty constructor text; otherwise nothing changes. */
    method MakeConstructor()
      modifies this
      ensures pages == old(pages) + ConstructorPages(env, interfaceName, sourcePage)
    {
      if !HasConstructor(sourcePage) {
        return;
      }
      var constructorText := WrapSummary(sourcePage.constructorText.value);
      constructorText := env.render(constructorText);
      var constructorPage := NewPage(env, interfaceName, "constructor");
      constructorPage := Inject(env, constructorPage, constructorText, "Summary");
      var newLink := ConstructorLink(interfaceName);
      constructorPage := ReplaceString(env, constructorPage, MemberLinkToken, newLink);
      pages := pages + [constructorPage];
    }

    /** `_makeEvents`: the event handler pages are pushed, none when the
        source has no events section. */
    method MakeEvents()
      modifies this
      ensures pages == old(pages) + SectionPages(env, interfaceName, sourcePage.events, EventHandler)
    {
      if sourcePage.events.None? {
        return;
      }
      var newPages := RenderList(sourcePage.events.value, EventHandler);
      pages := pages + newPages;
    }

    /** `_makeMethods`: the method pages are pushed, none when the source has
        no methods section. */
    method MakeMethods()
      modifies this
      ensures pages == old(pages) + SectionPages(env, interfaceName, sourcePage.methods, Method)
    {
      if sourcePage.methods.None? {
        return;
      }
      var newPages := RenderList(sourcePage.methods.value, Method);
      pages := pages + newPages;
    }

    /** `_makeProperties`: the property pages are pushed, none when the
        source has no properties section. */
    method MakeProperties()
      modifies this
      ensures pages == old(pages) + SectionPages(env, interfaceName, sourcePage.properties, Property)
    {
      if sourcePage.properties.None? {
        return;
      }
      var newPages := RenderList(sourcePage.properties.value, Property);
      pages := pages + newPages;
    }

    /** `_renderList`: one member page per entry of the split list, in list
        order. */
    method RenderList(listText: seq<string>, t: MemberType) returns (newPages: seq<Page>)
      ensures newPages == MemberPages(env, interfaceName, t, Members(listText))
    {
      newPages := [];
      var memberList := SplitList(listText);
      var kind := Lower(TypeName(t));
      assert kind == PageKind(t) by {
        PageKindIsLowerType(t);
      }
      var i := 0;
      while i < |memberList|
        invariant 0 <= i <= |memberList|
        invariant newPages == MemberPages(env, interfaceName, t, memberList[..i])
      {
        var m := memberList[i];
        var newPage := NewPage(env, m[0], kind);
        m := m[1 := env.render(m[1])];
        newPage := Inject(env, newPage, m[1], "Summary");
        newPage := ReplaceString(env, newPage, Placeholder(t), ShortName(env, newPage));
        var newLink := MemberLink(interfaceName, ShortName(env, newPage));
        newPage := ReplaceString(env, newPage, MemberLinkToken, newLink);
        assert newPage == MemberPage(env, interfaceName, t, memberList[i]);
        MemberPagesSnoc(env, interfaceName, t, memberList, i);
        newPages := newPages + [newPage];
        i := i + 1;
      }
      assert memberList[..i] == memberList;
    }

    /** `_splitList`: the lines are visited in order and every line holding
        the delimiter contributes its entry. */
    method SplitList(sourceText: seq<string>) returns (newList: seq<seq<string>>)
      ensures newList == Members(sourceText)
    {
      newList := [];
      var s := 0;
      while s < |sourceText|
        invariant 0 <= s <= |sourceText|
        invariant newList == Members(sourceText[..s])
      {
        assert sourceText[..s + 1][..s] == sourceText[..s];
        if Includes(sourceText[s], Delim) {
          SplitCount(sourceText[s], Delim);
          var sourceLines := Split(sourceText[s], Delim);
          sourceLines := sourceLines[1 := Trim(ReplaceFirst(sourceLines[1], "\n", ""))];
          newList := newList + [sourceLines];
        }
        s := s + 1;
      }
      assert sourceText[..s] == sourceText;
    }
  }
}
