/** The process environment that os.Environ reads and os.Setenv writes: an
    ordered list of variables, as Go's runtime keeps it. */
module ProcessEnv {
  import opened Taskfile

  datatype EnvVar = EnvVar(key: string, value: string)

  type Environment = seq<EnvVar>

  /** The names of the variables in e. */
  function Keys(e: Environment): set<string> {
    if e == [] then {} else {e[0].key} + Keys(e[1..])
  }

  /** No name occurs twice in e. */
  predicate UniqueKeys(e: Environment) {
    e == [] || (e[0].key !in Keys(e[1..]) && UniqueKeys(e[1..]))
  }

  /** os.LookupEnv: the value of the first variable named key. */
  function Lookup(e: Environment, key: string): (r: Option<string>)
    ensures r.Some? <==> key in Keys(e)
  {
    if e == [] then None
    else if e[0].key == key then Some(e[0].value)
    else Lookup(e[1..], key)
  }

  /** os.Environ: one "key=value" string per variable, in order. */
  function Environ(e: Environment): (r: seq<string>)
    ensures |r| == |e|
    ensures forall i :: 0 <= i < |e| ==> r[i] == e[i].key + "=" + e[i].value
  {
    if e == [] then [] else [e[0].key + "=" + e[0].value] + Environ(e[1..])
  }

  /** A name os.Setenv accepts: non-empty, without '=' or NUL. */
  predicate ValidName(key: string) {
    key != [] && '=' !in key && '\0' !in key
  }

  /** A value os.Setenv accepts: without NUL. */
  predicate ValidValue(value: string) {
    '\0' !in value
  }

  /** Replaces the variable named key, where it stands, or appends it. */
  function Assign(e: Environment, key: string, value: string): (r: Environment)
    ensures Keys(r) == Keys(e) + {key}
    ensures UniqueKeys(e) ==> UniqueKeys(r)
    ensures |r| == if key in Keys(e) then |e| else |e| + 1
  {
    if e == [] then [EnvVar(key, value)]
    else if e[0].key == key then [EnvVar(key, value)] + e[1..]
    else [e[0]] + Assign(e[1..], key, value)
  }

  /** os.Setenv: None when the name or value is refused (EINVAL). */
  function Setenv(e: Environment, key: string, value: string): (r: Option<Environment>)
    ensures r.Some? <==> ValidName(key) && ValidValue(value)
    ensures r.Some? ==> r.value == Assign(e, key, value)
  {
    if ValidName(key) && ValidValue(value) then Some(Assign(e, key, value)) else None
  }

  /** After Assign, key has the new value and every other name keeps its own. */
  lemma {:induction false} AssignLookup(e: Environment, key: string, value: string, other: string)
    ensures Lookup(Assign(e, key, value), key) == Some(value)
    ensures other != key ==> Lookup(Assign(e, key, value), other) == Lookup(e, other)
  {
    if e != [] && e[0].key != key {
      AssignLookup(e[1..], key, value, other);
    }
  }
}
