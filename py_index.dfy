/** Python list indexing: an index in [-len, len) selects an element, a
    negative one counting from the end of the list. */
module PyIndex {

  /** The element position that index `i` selects in a list of length `len`. */
  function Wrap(i: int, len: int): (k: int)
    requires -len <= i < len
    ensures 0 <= k < len
    ensures i >= 0 ==> k == i
    ensures i < 0 ==> k == len + i
  {
    if i < 0 then len + i else i
  }
}
