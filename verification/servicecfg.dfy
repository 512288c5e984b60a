/** `ServiceConfig`, the common base of the unit and the rc script objects: every
    attribute that is not an instance attribute lives in one `values` dict, so
    attribute access is dictionary access and `k in obj` is a key test. */
module ServiceConfig {
  import opened Wrappers

  /** A configuration value: a string, or a list of values (a multi-line unit
      option becomes a list of its lines; requirement lists may nest). */
  datatype Value = Str(s: string) | List(items: seq<Value>)

  /** A list of strings as a list value. */
  function Strs(ss: seq<string>): (r: seq<Value>)
    ensures |r| == |ss|
    ensures forall i :: 0 <= i < |ss| ==> r[i] == Str(ss[i])
  {
    seq(|ss|, i requires 0 <= i < |ss| => Str(ss[i]))
  }

  /** The object, seen through its `values` dict. */
  datatype Config = Config(values: map<string, Value>)

  /** The only instance attribute: the dict itself. */
  const STORE: string := "values"

  /** An object with nothing stored yet. */
  function Empty(): (c: Config)
    ensures forall k :: !Contains(c, k)
  {
    Config(map[])
  }

  /** `k in obj`. */
  predicate Contains(c: Config, k: string) {
    k in c.values
  }

  /** `obj.k` for a name that is not the store itself: the stored value, or
      `None` for the AttributeError a missing name raises. */
  function Get(c: Config, k: string): (r: Option<Value>)
    requires k != STORE
    ensures r.Some? <==> Contains(c, k)
    ensures r.Some? ==> r.value == c.values[k]
  {
    if k in c.values then Some(c.values[k]) else None
  }

  /** `obj.k = v` for a name that is not the store itself. */
  function Set(c: Config, k: string, v: Value): (r: Config)
    requires k != STORE
    ensures r.values.Keys == c.values.Keys + {k}
    ensures Contains(r, k) && r.values[k] == v
    ensures forall k' :: k' != k && k' in c.values ==> k' in r.values && r.values[k'] == c.values[k']
  {
    Config(c.values[k := v])
  }

  /** Reading back what was just assigned gives it, and the name is now present. */
  lemma SetThenGet(c: Config, k: string, v: Value)
    requires k != STORE
    ensures Contains(Set(c, k, v), k)
    ensures Get(Set(c, k, v), k) == Some(v)
  {
  }

  /** Assigning one name leaves every other name's presence and value alone. */
  lemma SetOthers(c: Config, k: string, v: Value, k': string)
    requires k != STORE && k' != STORE && k' != k
    ensures Contains(Set(c, k, v), k') == Contains(c, k')
    ensures Get(Set(c, k, v), k') == Get(c, k')
  {
  }

  /** The last of two assignments to the same name wins. */
  lemma SetTwice(c: Config, k: string, v: Value, w: Value)
    requires k != STORE
    ensures Set(Set(c, k, v), k, w) == Set(c, k, w)
  {
  }
}
