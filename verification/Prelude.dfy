/** Types shared by every model. */
module Prelude {

  datatype Option<+T> = None | Some(value: T)

  /** A switch, by its datapath id. */
  datatype Dpid = Dpid(id: int)

  datatype Port = Port(no: int)

  /** One port of one switch. */
  datatype End = End(sw: Dpid, port: Port)

  /** One direction of a link between two switches. */
  datatype Arc = Arc(src: Dpid, dst: Dpid)

  /** `m.get(k)`: the value under `k`, or None. */
  function Lookup<K, V>(m: map<K, V>, k: K): Option<V> {
    if k in m then Some(m[k]) else None
  }
}
