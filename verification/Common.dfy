/** Vocabulary shared by every component: optional values and machine-width numbers. */
module Common {

  datatype Option<+T> = None | Some(value: T)

  type Byte = x: int | 0 <= x < 256

  /** Keys and values are raw byte strings everywhere in the engine. */
  type Bytes = seq<Byte>

  const U32_LIMIT: nat := 0x1_0000_0000
  const U64_LIMIT: nat := 0x1_0000_0000_0000_0000

  type U32 = x: nat | x < U32_LIMIT
  type U64 = x: nat | x < U64_LIMIT

  /** Looking a key up in a finite map, the reference reading of every `get` in the engine. */
  function MapGet<K, V>(m: map<K, V>, k: K): Option<V> {
    if k in m then Some(m[k]) else None
  }

  /** One write on a finite map: a value, or nothing for a delete. */
  function Assign<K, V>(m: map<K, V>, k: K, v: Option<V>): map<K, V> {
    if v.Some? then m[k := v.value] else m - {k}
  }

  function SaturatingSub(a: nat, b: nat): nat { if a >= b then a - b else 0 }

  ghost predicate NoRepeats<T>(s: seq<T>) {
    forall i, j | 0 <= i < j < |s| :: s[i] != s[j]
  }

  /** The numbers below `n`, among which a search visits each once. */
  ghost function Below(n: nat): (r: set<nat>)
    ensures forall v: nat :: v in r <==> v < n
  {
    if n == 0 then {} else Below(n - 1) + {n - 1}
  }
}
