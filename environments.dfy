/** LiSA's ValueEnvironment, the map from program variables to the
    elements of a non-relational domain. The library is not part of this
    model; these definitions are the behaviour the model assumes of it. */
module Environments {
  import opened Expressions

  /** The distinguished top and bottom environments, or a finite map. */
  datatype Env<V> = EnvTop | EnvBottom | EnvMap(m: map<Id, V>)

  /** getKeys(), and the keys an iteration over the environment visits. */
  function Keys<V>(e: Env<V>): set<Id>
  {
    if e.EnvMap? then e.m.Keys else {}
  }

  /** getState: the mapped element; the domain's top for an unmapped
      variable, and top or bottom throughout the top or bottom environment. */
  function Get<V>(e: Env<V>, id: Id, top: V, bottom: V): V
  {
    match e
    case EnvTop => top
    case EnvBottom => bottom
    case EnvMap(m) => if id in m then m[id] else top
  }

  /** putState: the environment with id bound to v; the top and bottom
      environments start from the empty map. */
  function Put<V>(e: Env<V>, id: Id, v: V): (r: Env<V>)
    ensures r.EnvMap? && Keys(r) == Keys(e) + {id}
  {
    EnvMap((if e.EnvMap? then e.m else map[])[id := v])
  }

  /** Reading back a write, and the other variables of a non-bottom
      environment left as they were. */
  lemma GetPut<V>(e: Env<V>, id: Id, v: V, other: Id, top: V, bottom: V)
    ensures Get(Put(e, id, v), id, top, bottom) == v
    ensures other != id && !e.EnvBottom? ==> Get(Put(e, id, v), other, top, bottom) == Get(e, other, top, bottom)
  {
  }
}
