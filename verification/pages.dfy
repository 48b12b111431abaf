/** The page numbers the viewer renders once the page count is known. */
module Pages {

  /** `Array.from(new Array(n), (el, index) => index + 1)`: one page number per page. */
  function PageNumbers(n: nat): (r: seq<nat>)
    ensures |r| == n
    ensures forall i :: 0 <= i < n ==> r[i] == i + 1
  {
    if n == 0 then [] else PageNumbers(n - 1) + [n]
  }

  /** The page numbers are strictly ascending. */
  lemma PageNumbersAscending(n: nat)
    ensures forall i, j :: 0 <= i < j < n ==> PageNumbers(n)[i] < PageNumbers(n)[j]
  {
  }

  /** Each page from 1 to `n` is rendered, and nothing else. */
  lemma PageNumbersCoverPages(n: nat)
    ensures forall k: nat :: k in PageNumbers(n) <==> 1 <= k <= n
  {
  }
}
