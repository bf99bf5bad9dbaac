/**
 The deck of the memory game: the eight card faces, the image resource each
 face is shown with, the unshuffled deck of sixteen cards (every face twice)
 and the shuffle, modelled as an arbitrary permutation of the deck's positions.
 */
module Cards {

  /** The eight symbols a card can show. */
  datatype Face = Chakra | Favourite | Hexagon | Navigation | Octahedron | Pyramid | Trefoil | MapleLeaf

  /** Number of cards on the board (one per push button). */
  const DeckSize: nat := 16

  /** The image resource a face is displayed with; the game compares cards by this name. */
  function ImagePath(f: Face): (p: string)
    ensures p != ""
  {
    match f
    case Chakra => ":/resources/chakra.png"
    case Favourite => ":/resources/favourite.png"
    case Hexagon => ":/resources/hexagon.png"
    case Navigation => ":/resources/navigation.png"
    case Octahedron => ":/resources/octahedron.png"
    case Pyramid => ":/resources/pyramid.png"
    case Trefoil => ":/resources/trefoil.png"
    case MapleLeaf => ":/resources/maple-leaf.png"
  }

  /** Two faces share an image name only if they are the same face. */
  lemma ImagePathInjective(f: Face, g: Face)
    ensures ImagePath(f) == ImagePath(g) <==> f == g
  {
    // after the common prefix ":/resources/" every name starts with a different letter
    if f != g {
      assert ImagePath(f)[12] != ImagePath(g)[12];
    }
  }

  /** Each face occurs exactly twice. */
  predicate EachFaceTwice(d: seq<Face>)
  {
    forall f: Face :: multiset(d)[f] == 2
  }

  /** The position of a face in the listing of the initial deck. */
  function Rank(f: Face): (r: nat)
    ensures r < DeckSize / 2
  {
    match f
    case Chakra => 0
    case Favourite => 1
    case Hexagon => 2
    case Navigation => 3
    case Octahedron => 4
    case Pyramid => 5
    case Trefoil => 6
    case MapleLeaf => 7
  }

  lemma RankInjective(f: Face, g: Face)
    ensures Rank(f) == Rank(g) ==> f == g
  {
  }

  /** The deck before shuffling: the eight faces in rank order, each listed twice in a row. */
  function InitialDeck(): (d: seq<Face>)
    ensures |d| == DeckSize
    ensures forall k :: 0 <= k < |d| ==> Rank(d[k]) == k / 2
  {
    [ Chakra, Chakra, Favourite, Favourite, Hexagon, Hexagon, Navigation, Navigation,
      Octahedron, Octahedron, Pyramid, Pyramid, Trefoil, Trefoil, MapleLeaf, MapleLeaf ]
  }

  /** A face at two adjacent positions and nowhere else occurs twice. */
  lemma AdjacentPairCount(d: seq<Face>, f: Face, i: nat)
    requires i + 1 < |d| && d[i] == f && d[i + 1] == f
    requires forall k :: 0 <= k < |d| && k != i && k != i + 1 ==> d[k] != f
    ensures multiset(d)[f] == 2
  {
    assert d == d[..i] + [f, f] + d[i + 2..];
    assert f !in d[..i];
    assert f !in d[i + 2..];
  }

  lemma InitialDeckFaceCount(f: Face)
    ensures multiset(InitialDeck())[f] == 2
  {
    var d := InitialDeck();
    var i := 2 * Rank(f);
    forall k | 0 <= k < |d| && k != i && k != i + 1 ensures d[k] != f {
      RankInjective(d[k], f);
    }
    RankInjective(d[i], f);
    RankInjective(d[i + 1], f);
    AdjacentPairCount(d, f, i);
  }

  lemma InitialDeckEachFaceTwice()
    ensures EachFaceTwice(InitialDeck())
  {
    forall f: Face ensures multiset(InitialDeck())[f] == 2 {
      InitialDeckFaceCount(f);
    }
  }

  /** 0, 1, ..., n - 1. */
  function Iota(n: nat): (r: seq<nat>)
    ensures |r| == n && forall k :: 0 <= k < n ==> r[k] == k
  {
    seq(n, k => k)
  }

  /** p lists each position 0 .. n-1 exactly once: a shuffle of n cards. */
  predicate IsIndexPermutation(p: seq<nat>, n: nat)
  {
    multiset(p) == multiset(Iota(n))
  }

  lemma PermutationInRange(p: seq<nat>, n: nat)
    requires IsIndexPermutation(p, n)
    ensures |p| == n && forall k :: 0 <= k < |p| ==> p[k] < n
  {
    assert |multiset(p)| == |multiset(Iota(n))|;
    forall k | 0 <= k < |p| ensures p[k] < n {
      assert p[k] in multiset(p);
      assert p[k] in Iota(n);
    }
  }

  /** The deck rearranged so that position k receives the card that was at p[k]. */
  function Permute<T>(s: seq<T>, p: seq<nat>): (r: seq<T>)
    requires forall k :: 0 <= k < |p| ==> p[k] < |s|
    ensures |r| == |p| && forall k :: 0 <= k < |p| ==> r[k] == s[p[k]]
  {
    seq(|p|, k requires 0 <= k < |p| => s[p[k]])
  }

  /** q with its j-th entry taken out. */
  function Without(q: seq<nat>, j: nat): (r: seq<nat>)
    requires j < |q|
    ensures |r| == |q| - 1
    ensures forall k :: 0 <= k < |r| ==> r[k] == if k < j then q[k] else q[k + 1]
  {
    q[..j] + q[j + 1..]
  }

  lemma WithoutMultiset(q: seq<nat>, j: nat)
    requires j < |q|
    ensures multiset(q) == multiset(Without(q, j)) + multiset{q[j]}
  {
    assert q == q[..j] + [q[j]] + q[j + 1..];
  }

  lemma PermuteWithout<T>(s: seq<T>, q: seq<nat>, j: nat)
    requires j < |q| && forall k :: 0 <= k < |q| ==> q[k] < |s|
    ensures forall k :: 0 <= k < |Without(q, j)| ==> Without(q, j)[k] < |s|
    ensures multiset(Permute(s, q)) == multiset(Permute(s, Without(q, j))) + multiset{s[q[j]]}
  {
    var r := Permute(s, q);
    assert Permute(s, Without(q, j)) == r[..j] + r[j + 1..];
    assert r == r[..j] + [r[j]] + r[j + 1..];
  }

  /** Rearranging by two position lists with the same elements gives the same cards. */
  lemma {:induction false} PermuteSameMultiset<T>(s: seq<T>, p: seq<nat>, q: seq<nat>)
    requires forall k :: 0 <= k < |p| ==> p[k] < |s|
    requires forall k :: 0 <= k < |q| ==> q[k] < |s|
    requires multiset(p) == multiset(q)
    ensures multiset(Permute(s, p)) == multiset(Permute(s, q))
    decreases |p|
  {
    assert |p| == |multiset(p)| == |multiset(q)| == |q|;
    if p != [] {
      var x := p[0];
      assert x in multiset(q);
      var j :| 0 <= j < |q| && q[j] == x;
      var p', q' := Without(p, 0), Without(q, j);
      WithoutMultiset(p, 0);
      WithoutMultiset(q, j);
      assert multiset(p') == multiset(q') by {
        forall y ensures multiset(p')[y] == multiset(q')[y] {
          assert multiset(p)[y] == multiset(q)[y];
        }
      }
      PermuteWithout(s, p, 0);
      PermuteWithout(s, q, j);
      PermuteSameMultiset(s, p', q');
    }
  }

  /** Shuffling keeps every card: the result is a permutation of the deck. */
  lemma PermutePreservesCards<T>(s: seq<T>, p: seq<nat>)
    requires IsIndexPermutation(p, |s|)
    ensures forall k :: 0 <= k < |p| ==> p[k] < |s|
    ensures |Permute(s, p)| == |s| && multiset(Permute(s, p)) == multiset(s)
  {
    PermutationInRange(p, |s|);
    PermuteSameMultiset(s, p, Iota(|s|));
    assert Permute(s, Iota(|s|)) == s;
  }

  /** A deck with each face twice keeps that property under any shuffle. */
  lemma ShuffleKeepsPairs(d: seq<Face>, p: seq<nat>)
    requires EachFaceTwice(d) && IsIndexPermutation(p, |d|)
    ensures forall k :: 0 <= k < |p| ==> p[k] < |d|
    ensures |Permute(d, p)| == |d| && EachFaceTwice(Permute(d, p))
  {
    PermutePreservesCards(d, p);
  }

  /** In a deck where each face occurs twice, a card has exactly one partner. */
  lemma PartnerUnique(d: seq<Face>, i: nat, j: nat, k: nat)
    requires EachFaceTwice(d)
    requires i < |d| && j < |d| && k < |d|
    requires i != j && d[i] == d[j]
    requires k != i && k != j
    ensures d[k] != d[i]
  {
    if d[k] == d[i] {
      if i < j {
        if k < i { ThreeCopies(d, k, i, j); } else if k < j { ThreeCopies(d, i, k, j); } else { ThreeCopies(d, i, j, k); }
      } else {
        if k < j { ThreeCopies(d, k, j, i); } else if k < i { ThreeCopies(d, j, k, i); } else { ThreeCopies(d, j, i, k); }
      }
    }
  }

  /** In a deck where each face occurs twice, every card has a partner. */
  lemma PartnerExists(d: seq<Face>, i: nat)
    requires EachFaceTwice(d) && i < |d|
    ensures exists j :: 0 <= j < |d| && j != i && d[j] == d[i]
  {
    OccurrenceSplit(d, i);
    if d[i] in d[..i] {
      var k :| 0 <= k < i && d[..i][k] == d[i];
      assert d[k] == d[i];
    } else {
      assert d[i] in d[i + 1..];
      var k :| 0 <= k < |d| - i - 1 && d[i + 1..][k] == d[i];
      assert d[i + 1 + k] == d[i];
    }
  }

  /** Three positions holding one face make it occur at least three times. */
  lemma ThreeCopies(d: seq<Face>, a: nat, b: nat, c: nat)
    requires a < b < c < |d| && d[a] == d[b] == d[c]
    ensures multiset(d)[d[a]] >= 3
  {
    OccurrenceSplit(d, c);
    OccurrenceSplit(d[..c], b);
    assert d[..c][..b] == d[..b];
    OccurrenceSplit(d[..b], a);
  }

  /** Removing one card lowers the count of its face by one. */
  lemma OccurrenceSplit(d: seq<Face>, i: nat)
    requires i < |d|
    ensures multiset(d)[d[i]] == multiset(d[..i])[d[i]] + 1 + multiset(d[i + 1..])[d[i]]
  {
    assert d == d[..i] + [d[i]] + d[i + 1..];
  }
}
