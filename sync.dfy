/** The body of `main` after login (src/main.rs:56-115): check the series is
    authorized, parse the completed list, then visit the episodes in metadata
    order, choosing a rendition for each and downloading those not yet
    transcribed. Network, console and file effects are replaced by the list
    of actions the loop performs and the way the run ends. */
module Sync {
  import opened Types
  import opened Rendition
  import opened Completed
  import opened WorkList
  import opened Paths

  /** What the loop does with one episode: download `url` into `tmp` and
      rename it to `target`, or report that the episode already exists. */
  datatype Action =
    | Download(episode: Episode, url: string, tmp: Path, target: Path)
    | AlreadyExists(episode: Episode)

  /** How the run ends: normally, at `assert!(metadata.authorized)`, or at
      the assertion that an episode has a "video/mp4" presentation. */
  datatype Outcome = Finished | Unauthorized | NoVideoLinks(episodeId: string)

  function EpisodesOf(listing: seq<EpisodeMedia>): seq<Episode> {
    seq(|listing|, i requires 0 <= i < |listing| => listing[i].episode)
  }

  /** The episodes the actions download, in order. */
  function Downloaded(actions: seq<Action>): seq<Episode> {
    if actions == [] then []
    else
      var last := actions[|actions| - 1];
      Downloaded(actions[..|actions| - 1]) + (if last.Download? then [last.episode] else [])
  }

  /** Appending an action extends the downloaded episodes by at most it. */
  lemma DownloadedSnoc(actions: seq<Action>, a: Action)
    ensures Downloaded(actions + [a]) == Downloaded(actions) + (if a.Download? then [a.episode] else [])
  {
    assert (actions + [a])[..|actions|] == actions;
  }

  /** Visiting one more episode extends the work list by at most it. */
  lemma PendingSnoc(transcribed: seq<string>, listing: seq<EpisodeMedia>, i: nat)
    requires i < |listing|
    ensures Pending(transcribed, EpisodesOf(listing[..i + 1])) ==
      Pending(transcribed, EpisodesOf(listing[..i])) +
      (if NeedsDownload(transcribed, listing[i].episode.createdAt) then [listing[i].episode] else [])
  {
    var episode := listing[i].episode;
    assert EpisodesOf(listing[..i + 1]) == EpisodesOf(listing[..i]) + [episode];
    PendingConcat(transcribed, EpisodesOf(listing[..i]), [episode]);
    assert Pending(transcribed, [episode]) ==
      if NeedsDownload(transcribed, episode.createdAt) then [episode] else [];
  }

  predicate HasVideo(m: EpisodeMedia) {
    AnyVideo(m.presentations)
  }

  /** Every episode of `ms` has a video presentation. */
  predicate AllHaveVideo(ms: seq<EpisodeMedia>) {
    ms == [] || (AllHaveVideo(ms[..|ms| - 1]) && HasVideo(ms[|ms| - 1]))
  }

  lemma {:induction false} AllHaveVideoIff(ms: seq<EpisodeMedia>)
    ensures AllHaveVideo(ms) <==> forall i :: 0 <= i < |ms| ==> HasVideo(ms[i])
    decreases |ms|
  {
    if ms != [] {
      var n := |ms| - 1;
      AllHaveVideoIff(ms[..n]);
      assert forall i :: 0 <= i < n ==> ms[..n][i] == ms[i];
    }
  }

  /** What the loop does with episode `m`, given the completed list and a
      video presentation for it: download the chosen rendition into the
      temporary path and rename it to the final path when no completed entry
      contains the episode's `createdAt`, otherwise report it as existing. */
  function ExpectedAction(transcribed: seq<string>, m: EpisodeMedia): (a: Action)
    requires HasVideo(m)
    ensures a.episode == m.episode
    ensures a.Download? <==> NeedsDownload(transcribed, m.episode.createdAt)
  {
    assert SelectRendition(m.presentations).Some?;
    var worst := SelectRendition(m.presentations).value;
    if NeedsDownload(transcribed, m.episode.createdAt) then
      Download(m.episode, worst.url, TempPath(m.episode.createdAt), FinalPath(m.episode.createdAt))
    else AlreadyExists(m.episode)
  }

  /** A planned download fetches a video presentation of least area, writes
      it under a name other than the final one, and renames it to exactly
      `videos/<createdAt>` with extension "mp4". */
  lemma DownloadActionFacts(transcribed: seq<string>, m: EpisodeMedia)
    requires HasVideo(m) && ExpectedAction(transcribed, m).Download?
    ensures var a := ExpectedAction(transcribed, m);
      && a.url == SelectRendition(m.presentations).value.url
      && (exists p :: p in m.presentations && IsVideo(p) && p.url == a.url &&
           forall q :: q in m.presentations && IsVideo(q) ==> Area(p) <= Area(q))
      && a.target == FinalPath(m.episode.createdAt)
      && SetExtension(a.tmp, "mp4") == a.target
      && (m.episode.createdAt != ".." ==> a.tmp != a.target)
  {
    var a := ExpectedAction(transcribed, m);
    var worst := SelectRendition(m.presentations).value;
    assert worst.url == a.url;
    RenameTargetIsFinalPath(m.episode.createdAt);
    if m.episode.createdAt != ".." {
      TempDiffersOnlyInExtension(m.episode.createdAt);
    }
  }

  /** One iteration of the `for episode` loop (src/main.rs:74-114); `None`
      is the failed assertion that the episode has a video presentation. */
  method VisitEpisode(transcribed: seq<string>, m: EpisodeMedia) returns (r: Option<Action>)
    ensures r.None? <==> !HasVideo(m)
    ensures r.Some? ==> r.value == ExpectedAction(transcribed, m)
  {
    var episode := m.episode;
    var selected := SelectRendition(m.presentations);
    if selected.None? {
      return None;
    }
    var worst := selected.value;
    var filename := Join(Videos, episode.createdAt);
    filename := SetExtension(filename, "mp4");
    if NeedsDownload(transcribed, episode.createdAt) {
      filename := SetExtension(filename, "tmp");
      var target := SetExtension(filename, "mp4");
      RenameTargetIsFinalPath(episode.createdAt);
      r := Some(Download(episode, worst.url, filename, target));
    } else {
      r := Some(AlreadyExists(episode));
    }
  }

  /** The actions of the loop over episodes that all have a video
      presentation: one `ExpectedAction` per episode, in listing order. */
  function ExpectedActions(transcribed: seq<string>, ms: seq<EpisodeMedia>): (r: seq<Action>)
    requires AllHaveVideo(ms)
    ensures |r| == |ms|
  {
    if ms == [] then []
    else ExpectedActions(transcribed, ms[..|ms| - 1]) + [ExpectedAction(transcribed, ms[|ms| - 1])]
  }

  /** One more episode with a video presentation extends the planned
      actions by its own action. */
  lemma ExpectedActionsSnoc(transcribed: seq<string>, ms: seq<EpisodeMedia>, i: nat)
    requires i < |ms| && AllHaveVideo(ms[..i]) && HasVideo(ms[i])
    ensures AllHaveVideo(ms[..i + 1])
    ensures ExpectedActions(transcribed, ms[..i + 1]) ==
      ExpectedActions(transcribed, ms[..i]) + [ExpectedAction(transcribed, ms[i])]
  {
    assert ms[..i + 1][..i] == ms[..i];
  }

  /** The `i`-th planned action concerns the `i`-th episode alone: it does
      not depend on any other episode of the listing. */
  lemma {:induction false} ExpectedActionsAt(transcribed: seq<string>, ms: seq<EpisodeMedia>, i: nat)
    requires AllHaveVideo(ms) && i < |ms|
    ensures HasVideo(ms[i])
    ensures ExpectedActions(transcribed, ms)[i] == ExpectedAction(transcribed, ms[i])
    ensures ExpectedActions(transcribed, ms)[i].episode == ms[i].episode
    ensures ExpectedActions(transcribed, ms)[i].Download? <==> NeedsDownload(transcribed, ms[i].episode.createdAt)
    decreases |ms|
  {
    AllHaveVideoIff(ms);
    if i < |ms| - 1 {
      ExpectedActionsAt(transcribed, ms[..|ms| - 1], i);
    }
  }

  /** The planned actions download exactly the work list, in order. */
  lemma {:induction false} DownloadedArePending(transcribed: seq<string>, ms: seq<EpisodeMedia>)
    requires AllHaveVideo(ms)
    ensures Downloaded(ExpectedActions(transcribed, ms)) == Pending(transcribed, EpisodesOf(ms))
    decreases |ms|
  {
    if ms != [] {
      var n := |ms| - 1;
      var init := ms[..n];
      DownloadedArePending(transcribed, init);
      DownloadedSnoc(ExpectedActions(transcribed, init), ExpectedAction(transcribed, ms[n]));
      PendingSnoc(transcribed, ms, n);
      assert ms[..n + 1] == ms;
    }
  }

  /** The `for episode` loop (src/main.rs:66-115): the episodes are visited
      in order until one lacks a video presentation. */
  method VisitEpisodes(transcribed: seq<string>, listing: seq<EpisodeMedia>)
    returns (actions: seq<Action>, outcome: Outcome)
    ensures outcome != Unauthorized
    ensures outcome == Finished <==> AllHaveVideo(listing)
    ensures outcome == Finished ==> |actions| == |listing|
    ensures outcome.NoVideoLinks? ==>
      |actions| < |listing| && !HasVideo(listing[|actions|]) &&
      outcome.episodeId == listing[|actions|].episode.id
    ensures |actions| <= |listing|
    ensures AllHaveVideo(listing[..|actions|])
    ensures actions == ExpectedActions(transcribed, listing[..|actions|])
  {
    actions := [];
    var i := 0;
    while i < |listing|
      invariant 0 <= i <= |listing| && |actions| == i
      invariant AllHaveVideo(listing[..i])
      invariant actions == ExpectedActions(transcribed, listing[..i])
    {
      var r := VisitEpisode(transcribed, listing[i]);
      if r.None? {
        AllHaveVideoIff(listing);
        return actions, NoVideoLinks(listing[i].episode.id);
      }
      ExpectedActionsSnoc(transcribed, listing, i);
      actions := actions + [r.value];
      i := i + 1;
    }
    assert listing[..i] == listing;
    outcome := Finished;
  }

  /** The run after login (src/main.rs:56-115): nothing happens for an
      unauthorized series; otherwise the completed list is parsed and the
      episodes are visited. The episodes downloaded are exactly the work
      list of the episodes visited, in metadata order. */
  method Sync(authorized: bool, transcribedText: string, listing: seq<EpisodeMedia>)
    returns (actions: seq<Action>, outcome: Outcome)
    ensures !authorized ==> outcome == Unauthorized && actions == []
    ensures outcome == Unauthorized <==> !authorized
    ensures outcome == Finished <==> authorized && forall i :: 0 <= i < |listing| ==> HasVideo(listing[i])
    ensures outcome == Finished ==> |actions| == |listing|
    ensures outcome.NoVideoLinks? ==>
      |actions| < |listing| && !HasVideo(listing[|actions|]) &&
      outcome.episodeId == listing[|actions|].episode.id
    ensures |actions| <= |listing|
    ensures AllHaveVideo(listing[..|actions|])
    ensures actions == ExpectedActions(ParseCompleted(transcribedText), listing[..|actions|])
    ensures Downloaded(actions) == Pending(ParseCompleted(transcribedText), EpisodesOf(listing[..|actions|]))
  {
    if !authorized {
      return [], Unauthorized;
    }
    var transcribed := ParseCompleted(transcribedText);
    actions, outcome := VisitEpisodes(transcribed, listing);
    AllHaveVideoIff(listing);
    DownloadedArePending(transcribed, listing[..|actions|]);
  }
}
