/** The generator's tile lists (queue of rooms, end rooms, secret positions, ...) as sequences of coordinates. */
module Lists {
  import opened Tiles

  /** No element occurs twice: the property map_add_tile_to_list keeps for every list. */
  ghost predicate NoDup<T>(s: seq<T>) {
    forall i, j :: 0 <= i < j < |s| ==> s[i] != s[j]
  }

  /**
   * map_add_tile_to_list: the tile is appended when it is not yet in the list; otherwise the
   * list is left as it was (the source reports the duplicate and returns false).
   */
  function AddTileToList(list: seq<Pos>, tile: Pos): (r: seq<Pos>)
    ensures |r| == if tile in list then |list| else |list| + 1
    ensures tile in r && r[..|list|] == list
    ensures forall q :: q in r <==> q in list || q == tile
    ensures NoDup(list) ==> NoDup(r)
  {
    if tile in list then list else list + [tile]
  }

  /** A prefix of a list without duplicates has none either. */
  lemma NoDupPrefix<T>(s: seq<T>, n: nat)
    requires NoDup(s) && n <= |s|
    ensures NoDup(s[..n])
  {
  }

  /** The position of the first `x` in `s`, or `|s|` when `x` is not listed. */
  function IndexOf<T(==)>(s: seq<T>, x: T): (k: nat)
    ensures k <= |s| && (k < |s| <==> x in s)
    ensures k < |s| ==> s[k] == x
  {
    if s == [] then 0
    else if s[0] == x then 0
    else 1 + IndexOf(s[1..], x)
  }

  /** No element before the position IndexOf finds is `x`. */
  lemma {:induction false} IndexOfFirst<T>(s: seq<T>, x: T, j: nat)
    requires j < IndexOf(s, x)
    ensures s[j] != x
  {
    if j > 0 {
      IndexOfFirst(s[1..], x, j - 1);
    }
  }

  /** `x` is among the first `n` elements exactly when its first position is below `n`. */
  lemma IndexOfPrefix<T>(s: seq<T>, x: T, n: nat)
    requires n <= |s|
    ensures x in s[..n] <==> IndexOf(s, x) < n
  {
    var k := IndexOf(s, x);
    if k < n {
      assert s[..n][k] == x;
    } else if x in s[..n] {
      var j :| 0 <= j < n && s[..n][j] == x;
      IndexOfFirst(s, x, j);
    }
  }

  /** In a list without repeats, the element at position `k` is first found at `k`. */
  lemma IndexOfNoDup<T>(s: seq<T>, k: nat)
    requires NoDup(s) && k < |s|
    ensures IndexOf(s, s[k]) == k
  {
  }
}
