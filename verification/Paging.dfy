/** The page size every component agrees on. */
module Paging {
  const PAGE_SIZE: nat := 4096
}
