/** The table from simple type name to type reference that the module view
    builds from a module's exposed function signatures. */
module ReferenceTable {
  import opened MoveTypes

  /** An exposed function; only its parameter types matter here. */
  datatype ExposedFunction = ExposedFunction(parameters: seq<NormalizedType>)

  /** A normalized module; `exposedFunctions` lists the functions in the order
      the module's record of exposed functions enumerates its values. */
  datatype NormalizedModule = NormalizedModule(exposedFunctions: seq<ExposedFunction>)

  type Table = map<string, TypeReference>

  // ---------------------------------------------------------------------------
  // Specification: the sequence of writes the builder performs, and the table
  // those writes leave behind.

  /** The references a type yields when unwrapped: none or one. */
  function Resolved(t: NormalizedType): seq<TypeReference>
  {
    match Unwrap(t)
    case Some(r) => [r]
    case None => []
  }

  /** The writes for a reference's type arguments, each unwrapped one level. */
  function ArgumentWrites(args: seq<NormalizedType>): seq<TypeReference>
  {
    if args == [] then []
    else ArgumentWrites(args[..|args| - 1]) + Resolved(args[|args| - 1])
  }

  /** The writes for one parameter: its own reference, then those of its
      direct type arguments. */
  function ParameterWrites(p: NormalizedType): seq<TypeReference>
  {
    match Unwrap(p)
    case None => []
    case Some(r) => [r] + ArgumentWrites(r.typeArguments)
  }

  function ParametersWrites(ps: seq<NormalizedType>): seq<TypeReference>
  {
    if ps == [] then []
    else ParametersWrites(ps[..|ps| - 1]) + ParameterWrites(ps[|ps| - 1])
  }

  function FunctionsWrites(fs: seq<ExposedFunction>): seq<TypeReference>
  {
    if fs == [] then []
    else FunctionsWrites(fs[..|fs| - 1]) + ParametersWrites(fs[|fs| - 1].parameters)
  }

  /** Every write the builder performs, in order: functions, then each
      function's parameters, then each parameter's type arguments. */
  function Writes(m: NormalizedModule): seq<TypeReference>
  {
    FunctionsWrites(m.exposedFunctions)
  }

  /** The left fold of the writes into the table `t`, each write storing a
      reference under its own name and replacing what was stored there. */
  function Overwrite(t: Table, ws: seq<TypeReference>): Table
  {
    if ws == [] then t
    else var w := ws[|ws| - 1]; Overwrite(t, ws[..|ws| - 1])[w.name := w]
  }

  /** The table the builder produces. */
  function TableOf(m: NormalizedModule): Table
  {
    Overwrite(map[], Writes(m))
  }

  // ---------------------------------------------------------------------------
  // The builder.

  /** Walks the exposed functions and their parameters, storing each resolved
      reference and the resolved references of its direct type arguments. */
  method BuildTable(m: NormalizedModule) returns (table: Table)
    ensures table == TableOf(m)
  {
    table := map[];
    var fs := m.exposedFunctions;
    for i := 0 to |fs|
      invariant table == Overwrite(map[], FunctionsWrites(fs[..i]))
    {
      var ps := fs[i].parameters;
      ghost var t0 := table;
      assert ps[..0] == [];
      for j := 0 to |ps|
        invariant table == Overwrite(t0, ParametersWrites(ps[..j]))
      {
        ghost var t1 := table;
        var unwrapped := Unwrap(ps[j]);
        if unwrapped.Some? {
          var r := unwrapped.value;
          table := table[r.name := r];
          var args := r.typeArguments;
          assert args[..0] == [];
          for k := 0 to |args|
            invariant table == Overwrite(t1[r.name := r], ArgumentWrites(args[..k]))
          {
            ArgumentStep(t1[r.name := r], args, k);
            var arg := Unwrap(args[k]);
            if arg.Some? {
              table := table[arg.value.name := arg.value];
            }
          }
          assert args[..|args|] == args;
        }
        ParameterStep(t0, ps, j);
      }
      assert ps[..|ps|] == ps;
      FunctionStep(fs, i);
    }
    assert fs[..|fs|] == fs;
  }

  /** One type argument more: the table gains that argument's reference, if
      it has one. */
  lemma ArgumentStep(t: Table, args: seq<NormalizedType>, k: nat)
    requires k < |args|
    ensures Overwrite(t, ArgumentWrites(args[..k + 1])) ==
      match Unwrap(args[k])
      case None => Overwrite(t, ArgumentWrites(args[..k]))
      case Some(a) => Overwrite(t, ArgumentWrites(args[..k]))[a.name := a]
  {
    ArgumentWritesSnoc(args, k);
    OverwriteAppend(t, ArgumentWrites(args[..k]), Resolved(args[k]));
  }

  /** One parameter more: its reference is written, then its type arguments'. */
  lemma ParameterStep(t: Table, ps: seq<NormalizedType>, j: nat)
    requires j < |ps|
    ensures Overwrite(t, ParametersWrites(ps[..j + 1])) ==
      var before := Overwrite(t, ParametersWrites(ps[..j]));
      match Unwrap(ps[j])
      case None => before
      case Some(r) => Overwrite(before[r.name := r], ArgumentWrites(r.typeArguments))
  {
    ParametersWritesSnoc(ps, j);
    OverwriteAppend(t, ParametersWrites(ps[..j]), ParameterWrites(ps[j]));
    if Unwrap(ps[j]).Some? {
      var r := Unwrap(ps[j]).value;
      OverwriteAppend(Overwrite(t, ParametersWrites(ps[..j])), [r], ArgumentWrites(r.typeArguments));
    }
  }

  /** One function more: its parameters are written in order. */
  lemma FunctionStep(fs: seq<ExposedFunction>, i: nat)
    requires i < |fs|
    ensures Overwrite(map[], FunctionsWrites(fs[..i + 1])) ==
      Overwrite(Overwrite(map[], FunctionsWrites(fs[..i])), ParametersWrites(fs[i].parameters))
  {
    FunctionsWritesSnoc(fs, i);
    OverwriteAppend(map[], FunctionsWrites(fs[..i]), ParametersWrites(fs[i].parameters));
  }

  /** Writing `a` then `b` is writing `a + b`. */
  lemma {:induction false} OverwriteAppend(t: Table, a: seq<TypeReference>, b: seq<TypeReference>)
    ensures Overwrite(t, a + b) == Overwrite(Overwrite(t, a), b)
    decreases |b|
  {
    if b == [] {
      assert a + b == a;
    } else {
      assert (a + b)[..|a + b| - 1] == a + b[..|b| - 1];
      OverwriteAppend(t, a, b[..|b| - 1]);
    }
  }

  lemma ArgumentWritesSnoc(args: seq<NormalizedType>, k: nat)
    requires k < |args|
    ensures ArgumentWrites(args[..k + 1]) == ArgumentWrites(args[..k]) + Resolved(args[k])
  {
    assert args[..k + 1][..k] == args[..k];
  }

  lemma ParametersWritesSnoc(ps: seq<NormalizedType>, j: nat)
    requires j < |ps|
    ensures ParametersWrites(ps[..j + 1]) == ParametersWrites(ps[..j]) + ParameterWrites(ps[j])
  {
    assert ps[..j + 1][..j] == ps[..j];
  }

  lemma FunctionsWritesSnoc(fs: seq<ExposedFunction>, i: nat)
    requires i < |fs|
    ensures FunctionsWrites(fs[..i + 1]) == FunctionsWrites(fs[..i]) + ParametersWrites(fs[i].parameters)
  {
    assert fs[..i + 1][..i] == fs[..i];
  }

  // ---------------------------------------------------------------------------
  // What the fold keeps.

  /** The keys after the writes are the keys before plus every written name. */
  lemma {:induction false} OverwriteKeys(t: Table, ws: seq<TypeReference>)
    ensures Overwrite(t, ws).Keys == t.Keys + (set w | w in ws :: w.name)
    decreases |ws|
  {
    if ws != [] {
      var init := ws[..|ws| - 1];
      OverwriteKeys(t, init);
      assert ws == init + [ws[|ws| - 1]];
      assert (set w | w in ws :: w.name) == (set w | w in init :: w.name) + {ws[|ws| - 1].name};
    }
  }

  /** Every stored value is stored under its own name: it is either one of the
      writes, or, for a name nobody wrote, what the table held before. */
  lemma {:induction false} OverwriteValues(t: Table, ws: seq<TypeReference>, k: string)
    requires k in Overwrite(t, ws)
    ensures (exists w :: w in ws && w.name == k) ==>
      Overwrite(t, ws)[k] in ws && Overwrite(t, ws)[k].name == k
    ensures (forall w :: w in ws ==> w.name != k) ==> k in t && Overwrite(t, ws)[k] == t[k]
    decreases |ws|
  {
    if ws != [] {
      var init := ws[..|ws| - 1];
      var last := ws[|ws| - 1];
      assert ws == init + [last];
      if last.name != k {
        OverwriteValues(t, init, k);
      }
    }
  }

  /** The last write to a name is the one the table holds. */
  lemma {:induction false} LastWriteWins(t: Table, ws: seq<TypeReference>, i: nat)
    requires i < |ws|
    requires forall j :: i < j < |ws| ==> ws[j].name != ws[i].name
    ensures ws[i].name in Overwrite(t, ws) && Overwrite(t, ws)[ws[i].name] == ws[i]
    decreases |ws|
  {
    if i < |ws| - 1 {
      LastWriteWins(t, ws[..|ws| - 1], i);
    }
  }

  // ---------------------------------------------------------------------------
  // Which references get written.

  /** `w` is what parameter `p` unwraps to, or what one of that reference's
      direct type arguments unwraps to. */
  predicate ParameterMentions(p: NormalizedType, w: TypeReference)
  {
    match Unwrap(p)
    case None => false
    case Some(r) => w == r || exists a :: a in r.typeArguments && Unwrap(a) == Some(w)
  }

  /** Some parameter in `ps` mentions `w`. */
  ghost predicate ParametersMention(ps: seq<NormalizedType>, w: TypeReference)
  {
    exists p :: p in ps && ParameterMentions(p, w)
  }

  /** Some parameter of some function in `fs` mentions `w`. */
  ghost predicate FunctionsMention(fs: seq<ExposedFunction>, w: TypeReference)
  {
    exists f :: f in fs && ParametersMention(f.parameters, w)
  }

  /** Some parameter of some exposed function of `m` mentions `w`. */
  ghost predicate Mentions(m: NormalizedModule, w: TypeReference)
  {
    FunctionsMention(m.exposedFunctions, w)
  }

  lemma {:induction false} ArgumentWritesMembers(args: seq<NormalizedType>, w: TypeReference)
    ensures w in ArgumentWrites(args) <==> exists a :: a in args && Unwrap(a) == Some(w)
    decreases |args|
  {
    if args != [] {
      var init := args[..|args| - 1];
      var last := args[|args| - 1];
      ArgumentWritesMembers(init, w);
      assert args == init + [last];
      assert ArgumentWrites(args) == ArgumentWrites(init) + Resolved(last);
      if w in ArgumentWrites(args) && w !in ArgumentWrites(init) {
        assert w in Resolved(last);
        assert last in args && Unwrap(last) == Some(w);
      }
      if exists a :: a in args && Unwrap(a) == Some(w) {
        var a :| a in args && Unwrap(a) == Some(w);
        if a == last {
          assert w in Resolved(last);
        } else {
          assert a in init;
        }
      }
    }
  }

  lemma ParameterWritesMembers(p: NormalizedType, w: TypeReference)
    ensures w in ParameterWrites(p) <==> ParameterMentions(p, w)
  {
    if Unwrap(p).Some? {
      ArgumentWritesMembers(Unwrap(p).value.typeArguments, w);
    }
  }

  lemma {:induction false} ParametersWritesMembers(ps: seq<NormalizedType>, w: TypeReference)
    ensures w in ParametersWrites(ps) <==> ParametersMention(ps, w)
    decreases |ps|
  {
    if ps != [] {
      var init := ps[..|ps| - 1];
      var last := ps[|ps| - 1];
      ParametersWritesMembers(init, w);
      ParameterWritesMembers(last, w);
      assert ps == init + [last];
      assert ParametersWrites(ps) == ParametersWrites(init) + ParameterWrites(last);
      if w in ParametersWrites(ps) && w !in ParametersWrites(init) {
        assert last in ps && ParameterMentions(last, w);
      }
      if ParametersMention(ps, w) {
        var p :| p in ps && ParameterMentions(p, w);
        if p != last {
          assert p in init;
        }
      }
    }
  }

  lemma {:induction false} FunctionsWritesMembers(fs: seq<ExposedFunction>, w: TypeReference)
    ensures w in FunctionsWrites(fs) <==> FunctionsMention(fs, w)
    decreases |fs|
  {
    if fs != [] {
      var init := fs[..|fs| - 1];
      var last := fs[|fs| - 1];
      FunctionsWritesMembers(init, w);
      ParametersWritesMembers(last.parameters, w);
      FunctionsMentionSnoc(fs, w);
    }
  }

  lemma FunctionsMentionSnoc(fs: seq<ExposedFunction>, w: TypeReference)
    requires fs != []
    ensures FunctionsMention(fs, w) <==>
      FunctionsMention(fs[..|fs| - 1], w) || ParametersMention(fs[|fs| - 1].parameters, w)
  {
    var init, last := fs[..|fs| - 1], fs[|fs| - 1];
    if FunctionsMention(fs, w) {
      var f :| f in fs && ParametersMention(f.parameters, w);
      var i :| 0 <= i < |fs| && fs[i] == f;
      if i < |fs| - 1 {
        assert init[i] == f;
      }
    }
    if FunctionsMention(init, w) {
      var f :| f in init && ParametersMention(f.parameters, w);
      var i :| 0 <= i < |init| && init[i] == f;
      assert fs[i] == f;
    }
  }

  /** The builder writes exactly the references that some parameter mentions:
      a parameter's own reference and those of its direct type arguments, and
      nothing nested deeper. */
  lemma WritesAreMentions(m: NormalizedModule, w: TypeReference)
    ensures w in Writes(m) <==> Mentions(m, w)
  {
    FunctionsWritesMembers(m.exposedFunctions, w);
  }

  /** A name is in the table exactly when some mentioned reference has that
      name, and the reference stored under a name is a mentioned reference
      with that very name. */
  lemma TableEntries(m: NormalizedModule, k: string)
    ensures k in TableOf(m) <==> exists w :: Mentions(m, w) && w.name == k
    ensures k in TableOf(m) ==> TableOf(m)[k].name == k && Mentions(m, TableOf(m)[k])
  {
    var ws := Writes(m);
    OverwriteKeys(map[], ws);
    if k in TableOf(m) {
      var w :| w in ws && w.name == k;
      OverwriteValues(map[], ws, k);
      WritesAreMentions(m, TableOf(m)[k]);
      WritesAreMentions(m, w);
    }
    if exists w :: Mentions(m, w) && w.name == k {
      var w :| Mentions(m, w) && w.name == k;
      WritesAreMentions(m, w);
    }
  }

  /** The table is empty exactly when no parameter of any exposed function
      resolves to a struct; in particular a module with no exposed functions
      yields an empty table. */
  lemma EmptyTable(m: NormalizedModule)
    ensures TableOf(m) != map[] <==>
      exists f, p :: f in m.exposedFunctions && p in f.parameters && Unwrap(p).Some?
  {
    var fs := m.exposedFunctions;
    OverwriteKeys(map[], Writes(m));
    if exists f, p :: f in fs && p in f.parameters && Unwrap(p).Some? {
      var f, p :| f in fs && p in f.parameters && Unwrap(p).Some?;
      var r := Unwrap(p).value;
      assert ParameterMentions(p, r);
      assert ParametersMention(f.parameters, r);
      WritesAreMentions(m, r);
      assert r.name in TableOf(m);
      assert TableOf(m) != map[];
      assert exists f, p :: f in m.exposedFunctions && p in f.parameters && Unwrap(p).Some?;
    } else {
      forall w
        ensures w !in Writes(m)
      {
        WritesAreMentions(m, w);
      }
      assert (set w | w in Writes(m) :: w.name) == {};
      assert TableOf(m).Keys == {};
    }
  }

  /** The reference of the last parameter of the last exposed function is
      the one the table keeps under its name, whatever earlier parameters
      wrote there, unless one of its own direct type arguments (written after
      it) reuses that name. */
  lemma LastParameterWins(m: NormalizedModule, b: TypeReference)
    requires m.exposedFunctions != []
    requires m.exposedFunctions[|m.exposedFunctions| - 1].parameters != []
    requires var ps := m.exposedFunctions[|m.exposedFunctions| - 1].parameters;
      Unwrap(ps[|ps| - 1]) == Some(b)
    requires forall a :: a in b.typeArguments && Unwrap(a).Some? ==> Unwrap(a).value.name != b.name
    ensures b.name in TableOf(m) && TableOf(m)[b.name] == b
  {
    var after := ArgumentWrites(b.typeArguments);
    var before := LastParameterWrites(m, b);
    var ws := Writes(m);
    var i := |before|;
    assert ws[i] == b;
    forall j | i < j < |ws|
      ensures ws[j].name != b.name
    {
      assert ws[j] == after[j - i - 1];
      ArgumentWritesMembers(b.typeArguments, ws[j]);
    }
    LastWriteWins(map[], ws, i);
  }

  /** The writes of a module end with those of its last parameter. */
  lemma LastParameterWrites(m: NormalizedModule, b: TypeReference) returns (before: seq<TypeReference>)
    requires m.exposedFunctions != []
    requires m.exposedFunctions[|m.exposedFunctions| - 1].parameters != []
    requires var ps := m.exposedFunctions[|m.exposedFunctions| - 1].parameters;
      Unwrap(ps[|ps| - 1]) == Some(b)
    ensures Writes(m) == before + [b] + ArgumentWrites(b.typeArguments)
  {
    var fs := m.exposedFunctions;
    var ps := fs[|fs| - 1].parameters;
    assert ParameterWrites(ps[|ps| - 1]) == [b] + ArgumentWrites(b.typeArguments);
    before := FunctionsWrites(fs[..|fs| - 1]) + ParametersWrites(ps[..|ps| - 1]);
  }

  /** Example: two parameters of one function resolving to references with
      the same name and no type arguments; the table keeps the second. */
  lemma TwoSameNamedParameters(a: TypeReference, b: TypeReference)
    requires a.name == b.name && a.typeArguments == [] && b.typeArguments == []
    ensures TableOf(NormalizedModule([ExposedFunction([Struct(a), Reference(Struct(b))])]))
      == map[b.name := b]
  {
    var ps := [Struct(a), Reference(Struct(b))];
    assert Unwrap(ps[1]) == Some(b);
    assert ParameterWrites(ps[0]) == [a] && ParameterWrites(ps[1]) == [b];
    ParametersWritesSnoc(ps, 0);
    ParametersWritesSnoc(ps, 1);
    assert ps[..0] == [] && ps[..2] == ps;
    var fs := [ExposedFunction(ps)];
    FunctionsWritesSnoc(fs, 0);
    assert fs[..0] == [] && fs[..1] == fs;
    assert Writes(NormalizedModule(fs)) == [a, b];
    LastWinsPair(a, b);
  }

  lemma LastWinsPair(a: TypeReference, b: TypeReference)
    ensures Overwrite(map[], [a, b]) == map[a.name := a][b.name := b]
  {
    assert [a][..0] == [];
    assert Overwrite(map[], [a]) == map[a.name := a];
    assert [a, b][..1] == [a];
  }

  /** A parameter `outer<vector<mid<inner>>>` records `outer` and `mid` (one
      level of type arguments) but not `inner`. */
  lemma DeeperArgumentsIgnored(outer: TypeReference, mid: TypeReference, inner: TypeReference)
    requires outer.typeArguments == [Vector(Struct(mid))]
    requires mid.typeArguments == [Struct(inner)]
    ensures TableOf(NormalizedModule([ExposedFunction([Struct(outer)])]))
      == map[outer.name := outer][mid.name := mid]
  {
    var args := outer.typeArguments;
    assert Unwrap(args[0]) == Some(mid);
    ArgumentWritesSnoc(args, 0);
    assert args[..0] == [] && args[..1] == args;
    assert ParameterWrites(Struct(outer)) == [outer, mid];
    var ps := [Struct(outer)];
    ParametersWritesSnoc(ps, 0);
    assert ps[..0] == [] && ps[..1] == ps;
    var fs := [ExposedFunction(ps)];
    FunctionsWritesSnoc(fs, 0);
    assert fs[..0] == [] && fs[..1] == fs;
    assert Writes(NormalizedModule(fs)) == [outer, mid];
    LastWinsPair(outer, mid);
  }
}
