/** Which episodes the loop downloads (src/main.rs:66, 95): an episode is
    downloaded iff no entry of the completed list contains its `createdAt`,
    and episodes are visited in the order of the series metadata. */
module WorkList {
  import opened Types

  predicate StartsWith(t: string, p: string) {
    |p| <= |t| && t[..|p|] == p
  }

  /** `str::contains`: some suffix of `t` starts with `p`. */
  predicate Contains(t: string, p: string)
    ensures p == [] ==> Contains(t, p)
    ensures Contains(t, p) ==> |p| <= |t|
    decreases |t|
  {
    StartsWith(t, p) || (t != [] && Contains(t[1..], p))
  }

  /** Reference definition of a substring occurrence at position `i`. */
  ghost predicate OccursAt(t: string, p: string, i: int) {
    0 <= i && i + |p| <= |t| && t[i..i + |p|] == p
  }

  lemma {:induction false} ContainsIffOccurs(t: string, p: string)
    ensures Contains(t, p) <==> exists i :: OccursAt(t, p, i)
    decreases |t|
  {
    if t != [] {
      ContainsIffOccurs(t[1..], p);
      if Contains(t[1..], p) {
        var i :| OccursAt(t[1..], p, i);
        assert t[1..][i..i + |p|] == t[i + 1..i + 1 + |p|];
        assert OccursAt(t, p, i + 1);
      }
    }
    if StartsWith(t, p) {
      assert OccursAt(t, p, 0);
    }
    if i :| OccursAt(t, p, i) {
      if i > 0 {
        assert t[1..][i - 1..i - 1 + |p|] == t[i..i + |p|];
        assert OccursAt(t[1..], p, i - 1);
      } else {
        assert StartsWith(t, p);
      }
    }
  }

  /** `transcribed.iter().all(|t| !t.contains(&episode.created_at))`. */
  predicate NeedsDownload(transcribed: seq<string>, createdAt: string)
    ensures transcribed == [] ==> NeedsDownload(transcribed, createdAt)
    ensures createdAt == [] ==> (NeedsDownload(transcribed, createdAt) <==> transcribed == [])
    ensures (forall t :: t in transcribed ==> |t| < |createdAt|) ==> NeedsDownload(transcribed, createdAt)
  {
    assert transcribed != [] ==> transcribed[0] in transcribed;
    forall t :: t in transcribed ==> !Contains(t, createdAt)
  }

  /** An episode needs downloading iff its `createdAt` occurs in no entry. */
  lemma NeedsDownloadIff(transcribed: seq<string>, createdAt: string)
    ensures NeedsDownload(transcribed, createdAt) <==>
      forall t, i :: t in transcribed ==> !OccursAt(t, createdAt, i)
  {
    forall t | t in transcribed {
      ContainsIffOccurs(t, createdAt);
    }
  }

  /** An entry equal to the episode's `createdAt` excludes the episode. */
  lemma ListedEpisodeExcluded(transcribed: seq<string>, createdAt: string)
    requires createdAt in transcribed
    ensures !NeedsDownload(transcribed, createdAt)
  {
    assert StartsWith(createdAt, createdAt);
    assert Contains(createdAt, createdAt);
  }

  /** The episodes the loop downloads, in metadata order. */
  function Pending(transcribed: seq<string>, episodes: seq<Episode>): (r: seq<Episode>)
    ensures |r| <= |episodes|
    ensures forall e :: e in r <==> e in episodes && NeedsDownload(transcribed, e.createdAt)
  {
    if episodes == [] then []
    else if NeedsDownload(transcribed, episodes[0].createdAt) then
      [episodes[0]] + Pending(transcribed, episodes[1..])
    else Pending(transcribed, episodes[1..])
  }

  /** The decision is made per episode, in order: the work list of a
      concatenated listing is the concatenation of the work lists. */
  lemma {:induction false} PendingConcat(transcribed: seq<string>, a: seq<Episode>, b: seq<Episode>)
    ensures Pending(transcribed, a + b) == Pending(transcribed, a) + Pending(transcribed, b)
    decreases |a|
  {
    if a == [] {
      assert a + b == b;
    } else {
      assert (a + b)[1..] == a[1..] + b;
      PendingConcat(transcribed, a[1..], b);
    }
  }

  /** With an empty completed list every episode is downloaded. */
  lemma {:induction false} PendingNothingCompleted(episodes: seq<Episode>)
    ensures Pending([], episodes) == episodes
    decreases |episodes|
  {
    if episodes != [] {
      PendingNothingCompleted(episodes[1..]);
    }
  }

  /** More completed entries only remove episodes: the work list for `t + u`
      is the work list for `t` filtered again by `u`. */
  lemma {:induction false} PendingMoreCompleted(t: seq<string>, u: seq<string>, episodes: seq<Episode>)
    ensures Pending(t + u, episodes) == Pending(u, Pending(t, episodes))
    ensures forall e :: e in Pending(t + u, episodes) ==> e in Pending(t, episodes)
    decreases |episodes|
  {
    if episodes != [] {
      var e := episodes[0];
      assert NeedsDownload(t + u, e.createdAt) <==>
        NeedsDownload(t, e.createdAt) && NeedsDownload(u, e.createdAt);
      PendingMoreCompleted(t, u, episodes[1..]);
    }
  }

  /** Planning twice against the same completed list changes nothing. */
  lemma {:induction false} PendingIdempotent(transcribed: seq<string>, episodes: seq<Episode>)
    ensures Pending(transcribed, Pending(transcribed, episodes)) == Pending(transcribed, episodes)
    decreases |episodes|
  {
    if episodes != [] {
      PendingIdempotent(transcribed, episodes[1..]);
      if NeedsDownload(transcribed, episodes[0].createdAt) {
        var rest := Pending(transcribed, episodes[1..]);
        assert ([episodes[0]] + rest)[1..] == rest;
      }
    }
  }

  /** Appending an entry to the completed list removes from the next work
      list exactly the episodes whose `createdAt` occurs in that entry. */
  lemma MarkingExcludes(transcribed: seq<string>, createdAt: string, episodes: seq<Episode>)
    ensures forall e :: e in Pending(transcribed + [createdAt], episodes) <==>
      e in Pending(transcribed, episodes) && !Contains(createdAt, e.createdAt)
  {
    forall e | e in episodes
      ensures NeedsDownload(transcribed + [createdAt], e.createdAt) <==>
        NeedsDownload(transcribed, e.createdAt) && !Contains(createdAt, e.createdAt)
    {
      assert createdAt in transcribed + [createdAt];
      assert forall t :: t in transcribed + [createdAt] ==> t in transcribed || t == createdAt;
    }
  }
}
