/** Machine words as Forkscan reads them: naturals whose two low bits may carry tags. */
module Words {

  const WORD_SIZE := 8

  const PAGE_SIZE := 0x1000

  /** PAGE_SIZE / WORD_SIZE */
  const WORDS_PER_PAGE := 512

  /** PTR_MASK: the word with its two low-order bits cleared. */
  function PtrMask(w: nat): nat {
    w - w % 4
  }

  /** The low-order bit of a pool entry says that the entry has been marked. */
  predicate IsMarked(entry: nat) {
    entry % 2 == 1
  }

  function Min(a: int, b: int): int {
    if a < b then a else b
  }

  function Max(a: int, b: int): int {
    if a < b then b else a
  }

  /** The entries with clear low bits, in order. */
  ghost function UnmarkedOf(xs: seq<nat>): seq<nat> {
    if xs == [] then []
    else
      var rest := UnmarkedOf(xs[..|xs| - 1]);
      if xs[|xs| - 1] % 4 == 0 then rest + [xs[|xs| - 1]] else rest
  }

  /** The entries with clear low bits of a list of buffers, first to last. */
  ghost function UnmarkedOfAll(contents: seq<seq<nat>>): seq<nat> {
    if contents == [] then []
    else UnmarkedOfAll(contents[..|contents| - 1]) + UnmarkedOf(contents[|contents| - 1])
  }

  ghost function Cut(xs: seq<nat>, n: nat): seq<nat> {
    if |xs| > n then xs[..n] else xs
  }
}
