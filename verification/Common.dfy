/** What several components share. */
module Common {

  const PAGE_SIZE := 4096

  const BITMAP_WIDTH := 8

  // A record's place in a table file, or an index entry's value.
  datatype Rid = Rid(pageNo: int, slotNo: int)

  datatype Option<+T> = None | Some(value: T)

  /** No page or frame number occurs twice. */
  ghost predicate Distinct(s: seq<int>) {
    forall i, j :: 0 <= i < j < |s| ==> s[i] != s[j]
  }

  /** Moving the head of what is left to the end of what is done. */
  lemma Shift<T>(s: seq<T>, t: seq<T>)
    requires t != []
    ensures s + [t[0]] + t[1..] == s + t
  {
  }
}
