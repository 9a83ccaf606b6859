/** The black lists: bit tables, indexed by a hash of the block number, of blocks that some
    stray word seems to point to. */
module BlackList {

  const HBLKSIZE := 4096
  const WORDSZ := 64
  const PHT_WORDS := 0x1000
  const PHT_ENTRIES := WORDSZ * PHT_WORDS

  type Table = s: seq<bv64> | |s| == PHT_WORDS witness seq(PHT_WORDS, _ => 0)

  /** The tables of the last complete cycle and of the current one, and the setting of
      GC_all_interior_pointers. */
  datatype Tables = Tables(
    allInterior: bool,
    oldNormal: Table,
    incompleteNormal: Table,
    oldStack: Table,
    incompleteStack: Table)

  function Hash(h: nat): (index: nat)
    ensures index < PHT_ENTRIES
  {
    h % PHT_ENTRIES
  }

  predicate Entry(t: Table, index: nat)
    requires index < PHT_ENTRIES
  {
    (t[index / WORDSZ] >> (index % WORDSZ)) & 1 == 1
  }

  /** Block `b` is on a normal, respectively a stack, black list. */
  predicate NormalListed(t: Tables, b: nat) {
    !t.allInterior && (Entry(t.oldNormal, Hash(b)) || Entry(t.incompleteNormal, Hash(b)))
  }

  predicate StackListed(t: Tables, b: nat) {
    Entry(t.oldStack, Hash(b)) || Entry(t.incompleteStack, Hash(b))
  }

  /** The block-by-block meaning: starting `n` blocks at `h` is black listed when the first
      of them is on a normal list or any of them on a stack list. */
  ghost predicate Listed(t: Tables, h: nat, n: nat) {
    NormalListed(t, h) || exists b :: h <= b < h + n && StackListed(t, b)
  }

  lemma ZeroWord(index: nat)
    requires index < WORDSZ
    ensures ((0 as bv64) >> index) & 1 == 0
  {
  }

  /** In an all-zero word no later entry is set either. */
  lemma ZeroWordUnlisted(t: Tables, b: nat, d: nat)
    requires t.oldStack[Hash(b) / WORDSZ] == 0 && t.incompleteStack[Hash(b) / WORDSZ] == 0
    requires d < WORDSZ - Hash(b) % WORDSZ
    ensures !StackListed(t, b + d)
  {
    SameWord(b, d);
    ZeroWord(Hash(b + d) % WORDSZ);
  }

  lemma SameWord(b: nat, d: nat)
    requires d < WORDSZ - Hash(b) % WORDSZ
    ensures Hash(b + d) == Hash(b) + d && Hash(b + d) / WORDSZ == Hash(b) / WORDSZ
  {
    var i := Hash(b);
    assert b == PHT_ENTRIES * (b / PHT_ENTRIES) + i;
    assert i == WORDSZ * (i / WORDSZ) + i % WORDSZ;
    assert i + d < WORDSZ * (i / WORDSZ) + WORDSZ <= PHT_ENTRIES;
  }

  /** GC_is_black_listed: 0 when `len` bytes at block `h` are not black listed, otherwise a
      later start such that every start before it is black listed too. */
  method IsBlackListed(t: Tables, h: nat, len: nat) returns (r: nat)
    ensures var n := if len / HBLKSIZE == 0 then 1 else len / HBLKSIZE;
      && (r != 0 <==> Listed(t, h, n))
      && (r != 0 ==> h < r <= h + n && forall s :: h < s < r ==> Listed(t, s, n))
  {
    var index := Hash(h);
    if !t.allInterior && (Entry(t.oldNormal, index) || Entry(t.incompleteNormal, index)) {
      return h + 1;
    }
    var nblocks := len / HBLKSIZE;
    var i := 0;
    while true
      invariant 0 <= i && index == Hash(h + i)
      invariant i == 0 || i < nblocks
      invariant forall b :: h <= b < h + i ==> !StackListed(t, b)
      decreases nblocks - i
    {
      if t.oldStack[index / WORDSZ] == 0 && t.incompleteStack[index / WORDSZ] == 0 {
        forall b | h + i <= b < h + i + (WORDSZ - index % WORDSZ) ensures !StackListed(t, b) {
          ZeroWordUnlisted(t, h + i, b - (h + i));
        }
        i := i + (WORDSZ - index % WORDSZ);
      } else {
        if Entry(t.oldStack, index) || Entry(t.incompleteStack, index) {
          assert StackListed(t, h + i);
          return h + i + 1;
        }
        i := i + 1;
      }
      if i >= nblocks { break; }
      index := Hash(h + i);
    }
    return 0;
  }
}
