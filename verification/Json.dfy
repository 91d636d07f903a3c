/** JSON values as the audit tools see them, and the removal of volatile firewall fields. */
module Json {

  datatype Json =
    | Null
    | Bool(b: bool)
    | Number(n: int)
    | Str(s: string)
    | Arr(items: seq<Json>)
    | Obj(fields: map<string, Json>)

  /** Handles and counters change on every reload and say nothing about the rules. */
  predicate Volatile(name: string)
  {
    name == "handle" || name == "packets" || name == "bytes"
  }

  function Normalize(v: Json): Json
  {
    match v
    case Obj(fields) => Obj(map name | name in fields && !Volatile(name) :: Normalize(fields[name]))
    case Arr(items) => Arr(seq(|items|, i requires 0 <= i < |items| => Normalize(items[i])))
    case _ => v
  }

  /** No volatile field anywhere inside. */
  predicate Clean(v: Json)
  {
    match v
    case Obj(fields) => forall name :: name in fields ==> !Volatile(name) && Clean(fields[name])
    case Arr(items) => forall i :: 0 <= i < |items| ==> Clean(items[i])
    case _ => true
  }

  /** The values agree everywhere except in volatile fields, at any depth. */
  predicate SameRules(a: Json, b: Json)
  {
    match (a, b)
    case (Obj(f), Obj(g)) =>
      && (forall name :: name in f && !Volatile(name) ==> name in g && SameRules(f[name], g[name]))
      && (forall name :: name in g && !Volatile(name) ==> name in f)
    case (Arr(s), Arr(t)) => |s| == |t| && forall i :: 0 <= i < |s| ==> SameRules(s[i], t[i])
    case _ => a == b
  }

  lemma {:induction false} NormalizeCleans(v: Json)
    ensures Clean(Normalize(v))
  {
    match v
    case Obj(fields) =>
      forall name | name in fields
        ensures Clean(Normalize(fields[name]))
      {
        NormalizeCleans(fields[name]);
      }
    case Arr(items) =>
      forall i | 0 <= i < |items|
        ensures Clean(Normalize(items[i]))
      {
        NormalizeCleans(items[i]);
      }
    case _ =>
  }

  /** Normalisation changes nothing exactly when there is nothing to remove. */
  lemma {:induction false} NormalizeFixes(v: Json)
    ensures Normalize(v) == v <==> Clean(v)
  {
    NormalizeCleans(v);
    if Clean(v) {
      match v
      case Obj(fields) =>
        forall name | name in fields
          ensures Normalize(fields[name]) == fields[name]
        {
          NormalizeFixes(fields[name]);
        }
        assert Normalize(v).fields == fields;
      case Arr(items) =>
        forall i | 0 <= i < |items|
          ensures Normalize(items[i]) == items[i]
        {
          NormalizeFixes(items[i]);
        }
        assert Normalize(v).items == items;
      case _ =>
    }
  }

  lemma NormalizeIdempotent(v: Json)
    ensures Normalize(Normalize(v)) == Normalize(v)
  {
    NormalizeCleans(v);
    NormalizeFixes(Normalize(v));
  }

  /** Two values normalise to the same exactly when they agree outside the volatile fields. */
  lemma {:induction false} NormalizeEqual(a: Json, b: Json)
    ensures Normalize(a) == Normalize(b) <==> SameRules(a, b)
  {
    match (a, b)
    case (Obj(f), Obj(g)) =>
      var nf, ng := Normalize(a).fields, Normalize(b).fields;
      forall name | name in f && name in g && !Volatile(name)
        ensures nf[name] == ng[name] <==> SameRules(f[name], g[name])
      {
        NormalizeEqual(f[name], g[name]);
      }
      if nf == ng {
        forall name | name in f && !Volatile(name)
          ensures name in g && SameRules(f[name], g[name])
        {
          assert name in nf && name in ng;
        }
        forall name | name in g && !Volatile(name)
          ensures name in f
        {
          assert name in ng && name in nf;
        }
      }
      if SameRules(a, b) {
        assert nf == ng;
      }
    case (Arr(s), Arr(t)) =>
      var ns, nt := Normalize(a).items, Normalize(b).items;
      if |s| == |t| {
        forall i | 0 <= i < |s|
          ensures ns[i] == nt[i] <==> SameRules(s[i], t[i])
        {
          NormalizeEqual(s[i], t[i]);
        }
        if SameRules(a, b) {
          assert ns == nt;
        }
      }
    case _ =>
  }
}
