/** Counters and tables keyed by an identifier, as the accounting code uses them. */
module Store {

  const WORD := 0x1_0000_0000  // an IP_size holds 32 bits

  type Table<!K> = map<K, nat>

  /** The amount under a key; a missing row counts as nothing. */
  function At<K>(t: Table<K>, k: K): nat { if k in t then t[k] else 0 }

  function Plus<K>(t: Table<K>, k: K, amount: nat): Table<K> {
    t[k := At(t, k) + amount]
  }

  /** Addition on a 32-bit counter. */
  function AddWord<K>(t: Table<K>, k: K, amount: nat): Table<K> {
    t[k := (At(t, k) + amount) % WORD]
  }

  /** How often a 32-bit addition runs over. */
  function Carry(a: nat, b: nat): nat { (a + b) / WORD }

  lemma WordSum(a: nat, b: nat)
    ensures (a + b) % WORD + WORD * Carry(a, b) == a + b
  {}

  lemma WordMod(a: nat, b: nat)
    ensures (a % WORD + b) % WORD == (a + b) % WORD
  {}

  function Zeroed<K>(t: Table<K>): Table<K> {
    map k | k in t :: 0
  }

  function Merged<K>(a: Table<K>, b: Table<K>): Table<K> {
    map k | k in a.Keys + b.Keys :: At(a, k) + At(b, k)
  }
}
