/** Node layout of the tree-map: every node is one allocation holding a
    fixed header (the child links and a spare pointer), the key bytes rounded
    up to a whole number of node-data quanta, then the value bytes. */
module Layout {

  /** The two platform facts the layout macros depend on. `quantum` is
      sizeof(collect_c_common_node_data_t), the union of int, long,
      long long, double and void*; `sizeofSizeT` is sizeof(size_t). */
  datatype Platform = Platform(sizeofSizeT: nat, quantum: nat, header: nat)

  /** LP64: 8-byte size_t, 8-byte union, header of three pointers. */
  const LP64: Platform := Platform(8, 8, 24)

  /** ILP32 (e.g. 32-bit x86 Linux): size_t is 4 bytes but the union still
      holds an 8-byte double and long long; header of three 4-byte pointers. */
  const ILP32: Platform := Platform(4, 8, 12)

  /** The quantum the implementation uses on its primary (LP64) target. */
  const Quantum: nat := 8

  /** offsetof(node_t, data) on LP64. */
  const Header: nat := 24

  /** Number of node-data quanta reserved for the key, as the macro
      computes it: the rounding addend is sizeof(sizeof(...)), i.e.
      sizeof(size_t) - 1, not quantum - 1. */
  function NumQuantaForKeyAsWritten(p: Platform, keySize: nat): nat
    requires p.quantum > 0 && p.sizeofSizeT > 0
  {
    (keySize + p.sizeofSizeT - 1) / p.quantum
  }

  /** Value offset (from the start of the key) as written. */
  function ValOffsetAsWritten(p: Platform, keySize: nat): nat
    requires p.quantum > 0 && p.sizeofSizeT > 0
  {
    NumQuantaForKeyAsWritten(p, keySize) * p.quantum
  }

  /** Where size_t and the node-data union have the same width (LP64), the
      macro as written reserves exactly the ceiling of keySize / quantum
      quanta, so the value never overlaps the key and the padding is less
      than one quantum. */
  lemma AsWrittenIsCeilingWhenWidthsAgree(p: Platform, keySize: nat)
    requires p.quantum > 0 && p.sizeofSizeT == p.quantum
    ensures keySize <= ValOffsetAsWritten(p, keySize) < keySize + p.quantum
  {
    var n := NumQuantaForKeyAsWritten(p, keySize);
    assert keySize + p.quantum - 1 < (n + 1) * p.quantum;
  }

  /** On ILP32 an `int` key (4 bytes) gets zero quanta: the value region
      starts at the key's first byte, so writing the value overwrites the key. */
  lemma AsWrittenOverlapsOnILP32()
    ensures ValOffsetAsWritten(ILP32, 4) == 0
    ensures ValOffsetAsWritten(ILP32, 4) < 4
  {
  }

  /** Corrected quanta count: the ceiling of keySize / Quantum. */
  function NumQuantaForKey(keySize: nat): (n: nat)
    ensures n * Quantum >= keySize
    ensures n == 0 || (n - 1) * Quantum < keySize
  {
    (keySize + Quantum - 1) / Quantum
  }

  /** Offset of the value region from the start of the key region. */
  function ValOffset(keySize: nat): (off: nat)
    ensures keySize <= off < keySize + Quantum
    ensures off % Quantum == 0
  {
    NumQuantaForKey(keySize) * Quantum
  }

  /** Bytes requested from the allocator for one node, and reported back
      to it when the node is freed: header, quantised key, unpadded value. */
  function NodeSize(keySize: nat, valSize: nat): (cb: nat)
    ensures cb >= Header + keySize + valSize
    ensures cb < Header + keySize + Quantum + valSize
    ensures cb - Header - valSize == ValOffset(keySize)
  {
    Header + ValOffset(keySize) + valSize
  }

  /** On LP64 the macro as written and the corrected definition agree for
      every key size, so the library behaves as intended there. */
  lemma AsWrittenAgreesOnLP64(keySize: nat)
    ensures ValOffsetAsWritten(LP64, keySize) == ValOffset(keySize)
  {
  }

  /** The unit test reads an int map's value at data[1]: one quantum past
      the key, i.e. offset 8. */
  lemma IntKeyValueAtSecondQuantum()
    ensures ValOffset(4) == Quantum
    ensures NodeSize(4, 4) == 36
  {
  }
}
