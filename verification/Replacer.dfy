/** The LRU replacer: frames that may be evicted, most recently released first. */
module Replacer {
  import opened Common

  /** The list without a frame, the others in their order. */
  function Without(s: seq<int>, f: int): seq<int> {
    if s == [] then [] else (if s[0] == f then [] else [s[0]]) + Without(s[1..], f)
  }

  lemma {:induction false} WithoutMember(s: seq<int>, f: int, g: int)
    ensures g in Without(s, f) <==> g in s && g != f
  {
    if s != [] {
      WithoutMember(s[1..], f, g);
    }
  }

  lemma {:induction false} WithoutNone(s: seq<int>, f: int)
    requires f !in s
    ensures Without(s, f) == s
  {
    if s != [] {
      WithoutNone(s[1..], f);
    }
  }

  lemma WithoutTwice(s: seq<int>, f: int)
    ensures Without(Without(s, f), f) == Without(s, f)
  {
    WithoutMember(s, f, f);
    WithoutNone(Without(s, f), f);
  }

  /** The one occurrence of a frame is cut out where it is. */
  lemma {:induction false} WithoutAt(s: seq<int>, k: nat)
    requires k < |s| && Distinct(s)
    ensures Without(s, s[k]) == s[..k] + s[k + 1..]
  {
    if k == 0 {
      assert s[0] !in s[1..];
      WithoutNone(s[1..], s[0]);
    } else {
      WithoutAt(s[1..], k - 1);
      assert s[1..][k - 1] == s[k];
      assert s[..k] + s[k + 1..] == [s[0]] + (s[1..][..k - 1] + s[1..][k..]);
    }
  }

  /** When a frame was last released, counted in releases; -1 if it never was. */
  function LastIn(releases: seq<int>, f: int): (k: int)
    ensures -1 <= k < |releases|
  {
    var n := |releases| - 1;
    if n < 0 then -1 else if releases[n] == f then n else LastIn(releases[..n], f)
  }

  lemma {:induction false} LastInMeans(releases: seq<int>, f: int)
    ensures var k := LastIn(releases, f);
      (k >= 0 ==> releases[k] == f) && forall i :: k < i < |releases| ==> releases[i] != f
  {
    var n := |releases| - 1;
    if n >= 0 && releases[n] != f {
      LastInMeans(releases[..n], f);
    }
  }

  lemma LastInSnoc(releases: seq<int>, f: int, g: int)
    ensures LastIn(releases + [f], g) == if g == f then |releases| else LastIn(releases, g)
  {
    assert (releases + [f])[..|releases|] == releases;
  }

  predicate Later(releases: seq<int>, f: int, g: int) {
    LastIn(releases, f) > LastIn(releases, g) >= 0
  }

  // Release times fall from front to back.
  ghost predicate Aged(s: seq<int>, releases: seq<int>) {
    forall i, j {:trigger Later(releases, s[i], s[j])} :: 0 <= i < j < |s| ==> Later(releases, s[i], s[j])
  }

  ghost predicate AllReleased(s: seq<int>, releases: seq<int>) {
    forall f :: f in s ==> LastIn(releases, f) >= 0
  }

  lemma AgedDistinct(s: seq<int>, releases: seq<int>)
    requires Aged(s, releases)
    ensures Distinct(s)
  {
    forall i, j | 0 <= i < j < |s| ensures s[i] != s[j] {
      assert Later(releases, s[i], s[j]);
    }
  }

  lemma {:induction false} WithoutAged(s: seq<int>, releases: seq<int>, f: int)
    requires Aged(s, releases)
    ensures Aged(Without(s, f), releases)
  {
    if s != [] {
      assert forall i :: 0 <= i < |s[1..]| ==> s[1..][i] == s[i + 1];
      WithoutAged(s[1..], releases, f);
      var rest := Without(s[1..], f);
      forall i | 0 <= i < |rest| ensures Later(releases, s[0], rest[i]) {
        WithoutMember(s[1..], f, rest[i]);
        assert rest[i] in s[1..];
        var k :| 0 <= k < |s[1..]| && s[1..][k] == rest[i];
        assert s[k + 1] == rest[i] && 0 < k + 1 < |s|;
      }
    }
  }

  /** A frame that is not listed is released. */
  lemma ReleaseAges(s: seq<int>, releases: seq<int>, f: int)
    requires Aged(s, releases) && AllReleased(s, releases) && f !in s
    ensures Aged([f] + s, releases + [f]) && AllReleased([f] + s, releases + [f])
  {
    var s', releases' := [f] + s, releases + [f];
    forall g ensures LastIn(releases', g) == if g == f then |releases| else LastIn(releases, g) {
      LastInSnoc(releases, f, g);
    }
    forall i, j | 0 <= i < j < |s'| ensures Later(releases', s'[i], s'[j]) {
      assert s'[j] == s[j - 1] && s[j - 1] in s;
      if i > 0 {
        assert s'[i] == s[i - 1] && Later(releases, s[i - 1], s[j - 1]);
      }
    }
  }

  class LruReplacer {
    // LRUlist_, front first, and the keys of LRUhash_.
    var list: seq<int>
    var hash: set<int>
    // The frames released so far, the latest last.
    ghost var releases: seq<int>

    ghost predicate Valid()
      reads this
    {
      && (forall f :: f in hash <==> f in list)
      && Distinct(list) && Aged(list, releases) && AllReleased(list, releases)
    }

    constructor ()
      ensures Valid() && list == [] && releases == []
    {
      list, hash, releases := [], {}, [];
    }

    /** Takes out the frame released longest ago; None when nothing can be evicted. */
    method Victim() returns (frame: Option<int>)
      requires Valid()
      modifies this
      ensures Valid() && releases == old(releases) && (frame == None <==> old(list) == [])
      ensures frame == None ==> list == old(list)
      ensures frame.Some? ==> old(list) == list + [frame.value] && list == Without(old(list), frame.value)
      ensures frame.Some? ==> forall f :: f in list ==> Later(releases, f, frame.value)
      ensures frame.Some? ==> forall f :: f in list <==> f in old(list) && f != frame.value
    {
      if list == [] {
        return None;
      }
      var n := |list| - 1;
      frame := Some(list[n]);
      WithoutAt(list, n);
      assert list == list[..n] + [list[n]] && list[n + 1..] == [];
      list := list[..n];
      hash := hash - {frame.value};
    }

    /** A pinned frame is no candidate, listed or not. */
    method Pin(frame: int)
      requires Valid()
      modifies this
      ensures Valid() && releases == old(releases) && list == Without(old(list), frame)
      ensures forall f :: f in list <==> f in old(list) && f != frame
    {
      if frame in hash {
        forall f ensures f in Without(list, frame) <==> f in list && f != frame {
          WithoutMember(list, frame, f);
        }
        WithoutAged(list, releases, frame);
        AgedDistinct(Without(list, frame), releases);
        list := Without(list, frame);
        hash := hash - {frame};
      } else {
        WithoutNone(list, frame);
      }
    }

    /** A released frame becomes the most recent candidate unless it already is one. */
    method Unpin(frame: int)
      requires Valid()
      modifies this
      ensures Valid() && list == if frame in old(list) then old(list) else [frame] + old(list)
      ensures releases == if frame in old(list) then old(releases) else old(releases) + [frame]
      ensures forall f :: f in list <==> f in old(list) || f == frame
    {
      if frame in hash {
        return;
      }
      ReleaseAges(list, releases, frame);
      list := [frame] + list;
      hash := hash + {frame};
      releases := releases + [frame];
    }
  }
}
