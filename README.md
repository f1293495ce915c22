# Module view reference linking

The Sui explorer's module view shows a module's code with syntax highlighting.
It turns the type names in that code into links to the on-chain objects that
define them. This project models the core of that feature and proves its
properties in Dafny. The core has three parts:

- **Type unwrapping** (`MoveTypes`). A normalized Move type is reduced to the
  struct reference it contains. References, mutable references and vectors are
  looked through. Primitives, type parameters and unknown shapes give nothing.
- **Reference table** (`ReferenceTable`). The builder walks every exposed
  function and every parameter. It stores each resolved reference under its
  simple name. It then stores the resolved direct type arguments of that
  reference, one level deep. A later write to a name replaces an earlier one.
  `BuildTable` is the imperative builder, with nested loops over a map. It is
  proved equal to `TableOf`, a left fold (`Overwrite`) over the sequence of
  writes (`Writes`) in iteration order.
- **Token linking** (`TokenLinker`). A highlighted token becomes a link only
  when it is tagged `class-name` or `constant` and the table is present and has
  an entry for its text. The link goes to `/objects/<address>?module=<module>`.
  It opens in place when the normalized reference address equals the normalized
  address of the viewed module, and in a new tab otherwise. Every other token
  stays a plain span.

Collaborators are inputs to the model:

- The RPC fetch is replaced by a `NormalizedModule` value.
- The tokenizer is replaced by `seq<Token>`.
- Address normalization is the function parameter `normalize`.
- The query result is `Option<Table>`, where `None` means "not yet available".

## Model

| member | source | states |
|---|---|---|
| `MoveTypes.Unwrap` | apps/explorer/src/components/module/ModuleView.tsx:39-58 | the unwrapping itself, with no contract of its own; what it computes is stated by `UnwrapCharacterization` (layers over `Struct(r)` give `r`, any other base gives null), `UnwrapThroughIndirection` and `UnwrapBase` |
| `MoveTypes.UnwrapThroughIndirection` | apps/explorer/src/components/module/ModuleView.tsx:47-55 | unwrapping a type under any stack of reference, mutable-reference and vector layers gives the same result as unwrapping the type itself |
| `MoveTypes.StripOneLayer` | apps/explorer/src/components/module/ModuleView.tsx:47-55 | `Reference(t)`, `MutableReference(t)` and `Vector(t)` each unwrap exactly as `t` does |
| `MoveTypes.UnwrapNestedStruct` | apps/explorer/src/components/module/ModuleView.tsx:44-55 | any nesting of the three layers over `Struct(r)` unwraps to `r` |
| `MoveTypes.UnwrapBase` | apps/explorer/src/components/module/ModuleView.tsx:43-57 | on a type that is not a layer, the result is the struct's own reference for `Struct(r)` and null for primitives, type parameters and unhandled shapes |
| `MoveTypes.Decompose` | apps/explorer/src/components/module/ModuleView.tsx:40-58 | every finite type is a stack of layers over a base that is not a layer, so the recursion always ends at a base |
| `MoveTypes.UnwrapCharacterization` | apps/explorer/src/components/module/ModuleView.tsx:39-58 | unwrapping gives `r` if and only if the type is layers over `Struct(r)`, and gives null if and only if the base under the layers is not a struct |
| `ReferenceTable.Writes` | apps/explorer/src/components/module/ModuleView.tsx:73-89 | the specification of the builder: every write in iteration order, with no contract of its own; `WritesAreMentions` states which references it contains and `BuildTable` that the loops perform exactly these writes |
| `ReferenceTable.Overwrite` | apps/explorer/src/components/module/ModuleView.tsx:78-85 | storing each write under its name, a later one replacing an earlier one; no contract of its own, its properties are `OverwriteAppend`, `OverwriteKeys`, `OverwriteValues` and `LastWriteWins` |
| `ReferenceTable.TableOf` | apps/explorer/src/components/module/ModuleView.tsx:71-91 | the table the builder returns, the writes stored into an empty table; no contract of its own, characterized by `BuildTable`, `TableEntries`, `EmptyTable` and `LastParameterWins` |
| `ReferenceTable.BuildTable` | apps/explorer/src/components/module/ModuleView.tsx:71-91 | the nested loops over functions, parameters and direct type arguments produce exactly the left fold of the write sequence into an empty table |
| `ReferenceTable.OverwriteAppend` | apps/explorer/src/components/module/ModuleView.tsx:73-89 | performing two runs of writes one after the other is performing their concatenation |
| `ReferenceTable.OverwriteKeys` | apps/explorer/src/components/module/ModuleView.tsx:78-85 | after the writes, the keys are the previous keys plus every written name |
| `ReferenceTable.OverwriteValues` | apps/explorer/src/components/module/ModuleView.tsx:78-85 | each value is stored under its own name and is one of the writes, unless no write used that name, in which case it is the previous value |
| `ReferenceTable.LastWriteWins` | apps/explorer/src/components/module/ModuleView.tsx:73-89 | the table holds, for each name, the reference written to it last |
| `ReferenceTable.ArgumentWritesMembers` | apps/explorer/src/components/module/ModuleView.tsx:80-86 | the type-argument writes are exactly the non-null unwraps of the direct type arguments |
| `ReferenceTable.ParameterWritesMembers` | apps/explorer/src/components/module/ModuleView.tsx:75-86 | one parameter writes exactly its own unwrapped reference and the unwraps of that reference's direct type arguments, and nothing if it unwraps to null |
| `ReferenceTable.ParametersWritesMembers` | apps/explorer/src/components/module/ModuleView.tsx:75-87 | a list of parameters writes exactly what some parameter in it mentions |
| `ReferenceTable.FunctionsWritesMembers` | apps/explorer/src/components/module/ModuleView.tsx:73-89 | a list of functions writes exactly what some parameter of some function in it mentions |
| `ReferenceTable.WritesAreMentions` | apps/explorer/src/components/module/ModuleView.tsx:71-91 | the builder writes a reference if and only if a parameter of the module mentions it, so type arguments nested deeper are never written |
| `ReferenceTable.TableEntries` | apps/explorer/src/components/module/ModuleView.tsx:71-91 | a name is a key if and only if some mentioned reference has it, and the entry under a key has that key as its name and is a mentioned reference |
| `ReferenceTable.EmptyTable` | apps/explorer/src/components/module/ModuleView.tsx:71-91 | the table is empty if and only if no parameter of any exposed function unwraps to a struct, so a module without exposed functions gives an empty table |
| `ReferenceTable.LastParameterWins` | apps/explorer/src/components/module/ModuleView.tsx:73-89 | whatever earlier parameters wrote, the table maps the name of the reference that the last parameter of the last exposed function resolves to onto that reference, provided none of its own direct type arguments (written after it) resolves to a reference with the same name |
| `ReferenceTable.TwoSameNamedParameters` | apps/explorer/src/components/module/ModuleView.tsx:75-79 | example: for one function whose two parameters resolve to same-named references without type arguments, the table holds only the second |
| `ReferenceTable.DeeperArgumentsIgnored` | apps/explorer/src/components/module/ModuleView.tsx:80-86 | a parameter `outer<vector<mid<inner>>>` records `outer` and `mid` but not `inner` |
| `TokenLinker.IsTypeName` | apps/explorer/src/components/module/ModuleView.tsx:131-138 | a token counts as a type name when its tags include `class-name` or `constant`; no contract of its own, used by `Classify` |
| `TokenLinker.Href` | apps/explorer/src/components/module/ModuleView.tsx:140 | the link target `/objects/<address>?module=<module>`; no contract of its own, its layout and injectivity are `HrefLayout` and `HrefInjective` |
| `TokenLinker.Classify` | apps/explorer/src/components/module/ModuleView.tsx:125-170 | a token is a link if and only if it is tagged `class-name` or `constant` and the table is present and has its text as a key; the link's href is `/objects/<address>?module=<module>` of that entry; it opens in place exactly when the normalized addresses agree; the token is always preserved |
| `TokenLinker.RenderLine` | apps/explorer/src/components/module/ModuleView.tsx:125-171 | a line renders one descriptor per token, in order, and each descriptor is the classification of its own token (`Classify`); all are plain while the table is absent, and links appear only on type-name tokens |
| `TokenLinker.SameAddressStaysInPlace` | apps/explorer/src/components/module/ModuleView.tsx:150-157 | a reference whose raw address equals the viewed module's address links in place, whatever the normalization does |
| `TokenLinker.HrefLayout` | apps/explorer/src/components/module/ModuleView.tsx:140 | the href is `/objects/`, the address, then `?module=` and the module; for an address without `?`, the first `?` ends the address |
| `TokenLinker.HrefInjective` | apps/explorer/src/components/module/ModuleView.tsx:140 | for addresses without `?`, equal hrefs come from equal address and module |
| `TokenLinker.LinksToLastWrite` | apps/explorer/src/components/module/ModuleView.tsx:126-157 | a type-name token named by the builder's last write to that name links to the module that defines that last write |
| `TokenLinker.UnmentionedStaysPlain` | apps/explorer/src/components/module/ModuleView.tsx:126-139 | a token whose text names no reference mentioned by the module's parameters stays plain, whatever its tags |
| `TokenLinker.CoinExample` | apps/explorer/src/components/module/ModuleView.tsx:140-157 | a `Coin` token for a table entry at `0x2` in module `coin` links to `/objects/0x2?module=coin`, in place exactly when `0x2` and the viewed address normalize alike |

## Left out

- The RPC call `getNormalizedMoveModule`, the query cache, its key and the `enabled: !!id` gating are asynchronous framework behaviour. The module is an input and the query result is `Option<Table>`.
- The viewed module's `id` is a plain string. The table is only ever present when `id` is present, so `normalizeSuiAddress(id!)` on an absent id is not modelled.
- `normalizeSuiAddress` is a parameter `normalize: string -> string`. Its body is not part of this model. Only its determinism is used.
- Prism tokenization, the Rust grammar loaded as a side effect, the JSX, CSS classes, line numbers and the props of `getLineProps`, `getTokenProps` and `LinkWithQuery` are presentation. A token is its text and its tag list. The rendered element is a `Rendered` value that carries the token.
- The reference table is a plain JavaScript object in the source. A lookup such as `table["constructor"]` reaches `Object.prototype` and yields a truthy value. The model uses a Dafny `map`, where such a key is simply absent.
- The order of exposed functions is the order in which `Object.values` lists the record's values. The model takes that order as given in `exposedFunctions`.
- A JavaScript object could carry several of the keys `Struct`, `Reference`, `MutableReference` and `Vector` at once, and the source checks them in that order. The normalized-type datatype has exactly one variant per value, so that check order is not modelled.
- Exposed-function fields other than `parameters` (visibility, entry flag, type parameters, return types) are not read by the core and are not modelled.
