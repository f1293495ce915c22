/** Deciding, token by token, which highlighted tokens of the module's code
    become links to the objects they name. */
module TokenLinker {
  import opened MoveTypes
  import opened ReferenceTable

  /** A token from the syntax highlighter: its text and its category tags. */
  datatype Token = Token(content: string, types: seq<string>)

  /** Where a link opens: in the current view, or in a new browsing context. */
  datatype Target = SameTab | NewTab

  /** What is rendered for one token: a link carrying the token's own props,
      or the token as a plain span. */
  datatype Rendered = Link(token: Token, href: string, target: Target) | Plain(token: Token)

  /** The tags under which the highlighter reports type names. */
  predicate IsTypeName(tok: Token)
  {
    "class-name" in tok.types || "constant" in tok.types
  }

  /** The object page of the module that defines a type. */
  function Href(address: string, moduleName: string): string
  {
    "/objects/" + address + "?module=" + moduleName
  }

  /** Links a token when it is tagged as a type name and the table, once it is
      available, has an entry for its text. `id` is the address of the module
      being viewed and `normalize` the address normalization. */
  function Classify(tok: Token, table: Option<Table>, id: string, normalize: string -> string): (r: Rendered)
    ensures r.token == tok
    ensures r.Link? <==> IsTypeName(tok) && table.Some? && tok.content in table.value
    ensures r.Link? ==>
      var ref := table.value[tok.content];
      r.href == Href(ref.address, ref.moduleName) &&
      (r.target == SameTab <==> normalize(ref.address) == normalize(id))
  {
    if IsTypeName(tok) && table.Some? && tok.content in table.value then
      var ref := table.value[tok.content];
      Link(tok, Href(ref.address, ref.moduleName),
        if normalize(ref.address) == normalize(id) then SameTab else NewTab)
    else
      Plain(tok)
  }

  /** Renders one highlighted line, token by token. */
  function RenderLine(line: seq<Token>, table: Option<Table>, id: string, normalize: string -> string): (r: seq<Rendered>)
    ensures |r| == |line|
    ensures forall i :: 0 <= i < |line| ==> r[i] == Classify(line[i], table, id, normalize)
    ensures forall i :: 0 <= i < |line| ==> r[i].token == line[i]
    ensures table.None? ==> forall i :: 0 <= i < |r| ==> r[i].Plain?
    ensures forall i :: 0 <= i < |r| && r[i].Link? ==> IsTypeName(line[i])
  {
    seq(|line|, i requires 0 <= i < |line| => Classify(line[i], table, id, normalize))
  }

  // ---------------------------------------------------------------------------
  // Properties of links.

  /** A reference defined at the very address being viewed links in place,
      whatever the normalization does. */
  lemma SameAddressStaysInPlace(tok: Token, table: Table, id: string, normalize: string -> string)
    requires IsTypeName(tok) && tok.content in table
    requires table[tok.content].address == id
    ensures Classify(tok, Some(table), id, normalize).target == SameTab
  {
  }

  /** The path "/objects/<address>" runs up to the first '?'. */
  lemma HrefLayout(address: string, moduleName: string)
    requires '?' !in address
    ensures |Href(address, moduleName)| == 17 + |address| + |moduleName|
    ensures Href(address, moduleName)[..9] == "/objects/"
    ensures Href(address, moduleName)[9..9 + |address|] == address
    ensures Href(address, moduleName)[9 + |address|] == '?'
    ensures forall i :: 9 <= i < 9 + |address| ==> Href(address, moduleName)[i] != '?'
    ensures Href(address, moduleName)[17 + |address|..] == moduleName
  {
  }

  /** For addresses without a '?' (hexadecimal ones), distinct defining
      modules never share a link. */
  lemma HrefInjective(a1: string, m1: string, a2: string, m2: string)
    requires '?' !in a1 && '?' !in a2
    requires Href(a1, m1) == Href(a2, m2)
    ensures a1 == a2 && m1 == m2
  {
    HrefLayout(a1, m1);
    HrefLayout(a2, m2);
    assert |a1| == |a2|;
  }

  // ---------------------------------------------------------------------------
  // From a module's signatures to its links.

  /** A type-name token whose text is the name last written by the builder
      links to the defining module of that last write. */
  lemma LinksToLastWrite(m: NormalizedModule, tok: Token, i: nat, id: string, normalize: string -> string)
    requires IsTypeName(tok)
    requires i < |Writes(m)| && Writes(m)[i].name == tok.content
    requires forall j :: i < j < |Writes(m)| ==> Writes(m)[j].name != tok.content
    ensures var w := Writes(m)[i];
      Classify(tok, Some(TableOf(m)), id, normalize)
        == Link(tok, Href(w.address, w.moduleName),
                if normalize(w.address) == normalize(id) then SameTab else NewTab)
  {
    LastWriteWins(map[], Writes(m), i);
  }

  /** A token whose text names no reference mentioned by the module's
      parameters stays plain, whatever its tags. */
  lemma UnmentionedStaysPlain(m: NormalizedModule, tok: Token, id: string, normalize: string -> string)
    requires forall w :: Mentions(m, w) ==> w.name != tok.content
    ensures Classify(tok, Some(TableOf(m)), id, normalize).Plain?
  {
    TableEntries(m, tok.content);
  }

  /** The example of a `Coin` type defined in module `coin` at `0x2`: viewed
      from `0x2` it links in place, viewed from another address it opens a new
      tab exactly when the two addresses normalize differently. */
  lemma CoinExample(normalize: string -> string, id: string)
    ensures var coin := TypeReference("0x2", "coin", "Coin", []);
      var tok := Token("Coin", ["class-name"]);
      Classify(tok, Some(map["Coin" := coin]), id, normalize)
        == Link(tok, "/objects/0x2?module=coin",
                if normalize("0x2") == normalize(id) then SameTab else NewTab)
  {
    assert Href("0x2", "coin") == "/objects/0x2?module=coin";
  }
}
