/** Name resolution: an aliased command name is rewritten by the first
    alias that prefixes it, looked up as a class, and (by the loader only)
    followed along its `@SupersededBy` chain. Reflection becomes a finite
    class table and the injector's instance a class name. */
module Resolution {

  import opened Wrappers

  /** A registered alias: its name and `apply`, the rewrite it performs
      (defined outside this repository, so left as a function). */
  datatype Alias = Alias(name: string, apply: string -> string)

  /** What the class table knows of a class: the class its
      `@SupersededBy` annotation names, if any. */
  datatype ClassInfo = ClassInfo(supersededBy: Option<string>)

  type ClassTable = map<string, ClassInfo>

  datatype LoadError =
    | NullName             // `checkNotNull(aliasedName)`
    | UnknownClass(name: string)   // `ClassNotFoundException` wrapped

  predicate IsPrefix(p: string, s: string) {
    |p| <= |s| && s[..|p|] == p
  }

  /** The index of the first alias, in iteration order, whose name
      prefixes `s`. */
  function FirstAlias(aliases: seq<Alias>, s: string): (r: Option<nat>)
    ensures r.Some? ==> r.value < |aliases| && IsPrefix(aliases[r.value].name, s)
    ensures r.Some? ==> forall j :: 0 <= j < r.value ==> !IsPrefix(aliases[j].name, s)
    ensures r.None? <==> forall j :: 0 <= j < |aliases| ==> !IsPrefix(aliases[j].name, s)
  {
    if aliases == [] then None
    else if IsPrefix(aliases[0].name, s) then Some(0)
    else match FirstAlias(aliases[1..], s)
      case None => None
      case Some(i) => Some(i + 1)
  }

  /** `toRealName`: the first matching alias rewrites the name; without a
      match the name is kept. */
  function ToRealName(aliases: seq<Alias>, s: string): (r: string)
    ensures (forall j :: 0 <= j < |aliases| ==> !IsPrefix(aliases[j].name, s)) ==> r == s
    ensures forall i :: 0 <= i < |aliases| && IsPrefix(aliases[i].name, s)
                        && (forall j :: 0 <= j < i ==> !IsPrefix(aliases[j].name, s))
                        ==> r == aliases[i].apply(s)
  {
    match FirstAlias(aliases, s)
    case None => s
    case Some(i) => aliases[i].apply(s)
  }

  // ---------------------------------------------------------------------
  // Supersession.

  /** Following `@SupersededBy` from `c` ends in at most `n` steps at a
      class without the annotation. */
  predicate ReachesEnd(table: ClassTable, c: string, n: nat)
    decreases n
  {
    && c in table
    && (table[c].supersededBy.Some? ==> n > 0 && ReachesEnd(table, table[c].supersededBy.value, n - 1))
  }

  /** Every chain ends: the table has no supersession cycle. A chain of
      distinct classes has fewer links than the table has classes. */
  predicate Acyclic(table: ClassTable) {
    forall c :: c in table ==> ReachesEnd(table, c, |table|)
  }

  /** `getTarget`: a class without `@SupersededBy` is its own target; a
      superseded class resolves to the target of its superseder. */
  function TargetWithin(table: ClassTable, c: string, n: nat): (r: string)
    requires ReachesEnd(table, c, n)
    ensures r in table && table[r].supersededBy.None?
    ensures table[c].supersededBy.None? ==> r == c
    decreases n
  {
    match table[c].supersededBy
    case None => c
    case Some(next) => TargetWithin(table, next, n - 1)
  }

  function Target(table: ClassTable, c: string): (r: string)
    requires Acyclic(table) && c in table
    ensures r in table && table[r].supersededBy.None?
    ensures table[c].supersededBy.None? ==> r == c
  {
    TargetWithin(table, c, |table|)
  }

  /** Any fuel that reaches the end finds the same target. */
  lemma {:induction false} TargetFuel(table: ClassTable, c: string, m: nat, n: nat)
    requires ReachesEnd(table, c, m) && ReachesEnd(table, c, n)
    ensures TargetWithin(table, c, m) == TargetWithin(table, c, n)
    decreases m
  {
    if table[c].supersededBy.Some? {
      TargetFuel(table, table[c].supersededBy.value, m - 1, n - 1);
    }
  }

  /** A superseded class has its superseder's target, and a target is its
      own target. */
  lemma {:induction false} TargetFollowsChain(table: ClassTable, c: string)
    requires Acyclic(table) && c in table
    ensures table[c].supersededBy.Some? ==>
      table[c].supersededBy.value in table
      && Target(table, c) == Target(table, table[c].supersededBy.value)
    ensures Target(table, Target(table, c)) == Target(table, c)
  {
    if table[c].supersededBy.Some? {
      var next := table[c].supersededBy.value;
      TargetFuel(table, next, |table| - 1, |table|);
    }
  }

  // ---------------------------------------------------------------------
  // The two loaders.

  /** `LegacyCommandLoader.load`: the class whose instance the injector is
      asked for. */
  function LoaderLoad(aliases: seq<Alias>, table: ClassTable, aliasedName: Option<string>)
    : (r: Result<string, LoadError>)
    requires Acyclic(table)
    ensures aliasedName.None? ==> r == Err(NullName)
    ensures aliasedName.Some? && ToRealName(aliases, aliasedName.value) !in table ==>
      r == Err(UnknownClass(ToRealName(aliases, aliasedName.value)))
    ensures r.Ok? ==> r.value in table && table[r.value].supersededBy.None?
  {
    match aliasedName
    case None => Err(NullName)
    case Some(s) =>
      var realName := ToRealName(aliases, s);
      if realName !in table then Err(UnknownClass(realName))
      else Ok(Target(table, realName))
  }

  /** `LegacyCommandCache.load`: the class the real name names, with no
      supersession followed and nothing remembered between loads. */
  function CacheLoad(aliases: seq<Alias>, table: ClassTable, aliasedName: Option<string>)
    : (r: Result<string, LoadError>)
    ensures aliasedName.None? ==> r == Err(NullName)
    ensures r.Ok? ==> r.value in table
    ensures aliasedName.Some? && r.Err? ==> r.error.UnknownClass? && r.error.name !in table
    ensures aliasedName.Some? && FirstAlias(aliases, aliasedName.value).None? ==>
      (r.Ok? <==> aliasedName.value in table) && (r.Ok? ==> r.value == aliasedName.value)
    ensures forall i :: aliasedName.Some? && 0 <= i < |aliases| && IsPrefix(aliases[i].name, aliasedName.value)
                        && (forall j :: 0 <= j < i ==> !IsPrefix(aliases[j].name, aliasedName.value))
                        ==> r == (if aliases[i].apply(aliasedName.value) in table
                                  then Ok(aliases[i].apply(aliasedName.value))
                                  else Err(UnknownClass(aliases[i].apply(aliasedName.value))))
  {
    match aliasedName
    case None => Err(NullName)
    case Some(s) =>
      var realName := ToRealName(aliases, s);
      if realName !in table then Err(UnknownClass(realName)) else Ok(realName)
  }

  /** The loader is the cache followed by supersession: they fail alike,
      and agree exactly on names whose class is not superseded. */
  lemma LoaderIsCacheThenTarget(aliases: seq<Alias>, table: ClassTable, aliasedName: Option<string>)
    requires Acyclic(table)
    ensures CacheLoad(aliases, table, aliasedName).Err? ==>
      LoaderLoad(aliases, table, aliasedName) == CacheLoad(aliases, table, aliasedName)
    ensures CacheLoad(aliases, table, aliasedName).Ok? ==>
      var c := CacheLoad(aliases, table, aliasedName).value;
      && LoaderLoad(aliases, table, aliasedName) == Ok(Target(table, c))
      && (LoaderLoad(aliases, table, aliasedName) == CacheLoad(aliases, table, aliasedName)
          <==> table[c].supersededBy.None?)
  {
  }
}
