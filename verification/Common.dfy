/** Types that several of the models share. */
module Common {
  datatype Option<T> = None | Some(value: T)

  type byte = x: int | 0 <= x < 256

  const INT_LIMIT := 0x8000_0000

  /** A number as a 32-bit int holds it. */
  function Int32(x: int): (r: int)
    ensures -INT_LIMIT <= r < INT_LIMIT
    ensures r == x <==> -INT_LIMIT <= x < INT_LIMIT
  {
    (x + INT_LIMIT) % 0x1_0000_0000 - INT_LIMIT
  }
}

/** 64-bit guest addresses and their pages. */
module Addresses {
  const TWO_64 := 0x1_0000_0000_0000_0000
  const PAGE_SIZE := 4096

  type Address = x: int | 0 <= x < TWO_64

  function Add(a: Address, n: nat): (b: Address) {
    (a + n) % TWO_64
  }

  function PageIndex(a: Address): (p: nat) {
    a / PAGE_SIZE
  }

  function PageOffset(a: Address): (o: nat)
    ensures o < PAGE_SIZE
  {
    a % PAGE_SIZE
  }

  function PageBase(a: Address): (b: Address)
    ensures b <= a < b + PAGE_SIZE
  {
    a - a % PAGE_SIZE
  }
}
