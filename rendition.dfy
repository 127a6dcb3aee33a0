/** Choice of the rendition to download (src/main.rs:74-89): keep the
    presentations whose media type is "video/mp4", abort when none is left,
    otherwise take the one with the smallest pixel area, the first of equal
    minima winning as with `Iterator::min_by_key`. */
module Rendition {
  import opened Types

  const VideoMp4: string := "video/mp4"

  /** The key `min_by_key` compares: `width * height`. */
  function Area(p: Presentation): (r: nat)
    ensures r == 0 <==> p.width == 0 || p.height == 0
    ensures p.height > 0 ==> r >= p.width
    ensures p.width > 0 ==> r >= p.height
  {
    p.width * p.height
  }

  predicate IsVideo(p: Presentation) {
    p.mimeType == VideoMp4
  }

  /** `filter(|p| p.mime_type == "video/mp4")`: exactly the video presentations. */
  function VideoLinks(ps: seq<Presentation>): (r: seq<Presentation>)
    ensures |r| <= |ps|
    ensures forall p :: p in r <==> p in ps && IsVideo(p)
  {
    if ps == [] then []
    else if IsVideo(ps[0]) then [ps[0]] + VideoLinks(ps[1..])
    else VideoLinks(ps[1..])
  }

  /** The filter keeps the order of the listing: it distributes over concatenation. */
  lemma {:induction false} VideoLinksConcat(a: seq<Presentation>, b: seq<Presentation>)
    ensures VideoLinks(a + b) == VideoLinks(a) + VideoLinks(b)
    decreases |a|
  {
    if a == [] {
      assert a + b == b;
    } else {
      assert (a + b)[1..] == a[1..] + b;
      VideoLinksConcat(a[1..], b);
    }
  }

  /** `min_by_key` as the left fold it is: the accumulator is replaced only by
      an element whose key is strictly smaller. */
  function MinByKey(acc: Presentation, rest: seq<Presentation>): (r: Presentation)
    ensures r == acc || r in rest
    ensures Area(r) <= Area(acc)
    ensures forall q :: q in rest ==> Area(r) <= Area(q)
    decreases |rest|
  {
    if rest == [] then acc
    else MinByKey(if Area(rest[0]) < Area(acc) then rest[0] else acc, rest[1..])
  }

  /** `k` is the first index of `vs[..n]` holding a minimal area. */
  ghost predicate FirstMinimalBelow(vs: seq<Presentation>, n: nat, k: nat) {
    k < n <= |vs| &&
    (forall j :: 0 <= j < n ==> Area(vs[k]) <= Area(vs[j])) &&
    (forall j :: 0 <= j < k ==> Area(vs[k]) < Area(vs[j]))
  }

  ghost predicate FirstMinimalAt(vs: seq<Presentation>, k: nat) {
    FirstMinimalBelow(vs, |vs|, k)
  }

  /** At most one index is the first minimal one. */
  lemma FirstMinimalUnique(vs: seq<Presentation>, i: nat, j: nat)
    requires FirstMinimalAt(vs, i) && FirstMinimalAt(vs, j)
    ensures i == j
  {
    assert Area(vs[i]) == Area(vs[j]);
  }

  /** One fold step keeps the accumulator at the first minimum of the prefix seen. */
  lemma FirstMinimalStep(vs: seq<Presentation>, a: nat, i: nat)
    requires i < |vs| && FirstMinimalBelow(vs, i, a)
    ensures FirstMinimalBelow(vs, i + 1, if Area(vs[i]) < Area(vs[a]) then i else a)
  {
  }

  lemma MinByKeyStep(vs: seq<Presentation>, a: nat, i: nat)
    requires a < i < |vs|
    ensures MinByKey(vs[a], vs[i..]) ==
      MinByKey(if Area(vs[i]) < Area(vs[a]) then vs[i] else vs[a], vs[i + 1..])
  {
    assert vs[i..][0] == vs[i] && vs[i..][1..] == vs[i + 1..];
  }

  /** Folding from the first minimum of a prefix ends on the first minimum of
      the whole sequence. */
  lemma {:induction false} MinByKeyFirstMinimal(vs: seq<Presentation>, a: nat, i: nat)
    requires 0 < i <= |vs| && FirstMinimalBelow(vs, i, a)
    ensures exists k: nat :: FirstMinimalAt(vs, k) && MinByKey(vs[a], vs[i..]) == vs[k]
    decreases |vs| - i
  {
    if i == |vs| {
      assert FirstMinimalAt(vs, a) && MinByKey(vs[a], vs[i..]) == vs[a];
    } else {
      var a' := if Area(vs[i]) < Area(vs[a]) then i else a;
      MinByKeyStep(vs, a, i);
      FirstMinimalStep(vs, a, i);
      MinByKeyFirstMinimal(vs, a', i + 1);
    }
  }

  /** Some presentation of the listing is a video. */
  predicate AnyVideo(ps: seq<Presentation>) {
    ps != [] && (IsVideo(ps[0]) || AnyVideo(ps[1..]))
  }

  lemma {:induction false} AnyVideoIff(ps: seq<Presentation>)
    ensures AnyVideo(ps) <==> exists p :: p in ps && IsVideo(p)
  {
    if ps != [] {
      AnyVideoIff(ps[1..]);
      assert forall p :: p in ps <==> p == ps[0] || p in ps[1..];
    }
  }

  /** The whole selection. `None` is the failed `assert!(!video_links.is_empty())`. */
  function SelectRendition(ps: seq<Presentation>): (r: Option<Presentation>)
    ensures r.None? <==> forall p :: p in ps ==> !IsVideo(p)
    ensures r.Some? <==> AnyVideo(ps)
    ensures r.Some? ==> r.value in ps && IsVideo(r.value)
    ensures r.Some? ==> forall p :: p in ps && IsVideo(p) ==> Area(r.value) <= Area(p)
  {
    var videos := VideoLinks(ps);
    AnyVideoIff(ps);
    if videos == [] then None
    else
      assert videos[0] in videos;
      Some(MinByKey(videos[0], videos[1..]))
  }

  /** Ties go to input order: the chosen presentation is the first video
      presentation whose area is minimal. */
  lemma SelectRenditionFirstMinimal(ps: seq<Presentation>)
    ensures SelectRendition(ps).Some? ==>
      exists k: nat :: FirstMinimalAt(VideoLinks(ps), k) && SelectRendition(ps).value == VideoLinks(ps)[k]
  {
    var videos := VideoLinks(ps);
    if videos != [] {
      assert FirstMinimalBelow(videos, 1, 0);
      MinByKeyFirstMinimal(videos, 0, 1);
    }
  }

  /** Of 320x240 and 1920x1080 video and a 640x480 "audio/mp4" variant, the
      320x240 video is chosen. */
  lemma SelectSmallestVideo()
    ensures SelectRendition([
      Presentation(1920, 1080, "hd", VideoMp4),
      Presentation(640, 480, "audio", "audio/mp4"),
      Presentation(320, 240, "sd", VideoMp4)]) == Some(Presentation(320, 240, "sd", VideoMp4))
  {
    var ps := [
      Presentation(1920, 1080, "hd", VideoMp4),
      Presentation(640, 480, "audio", "audio/mp4"),
      Presentation(320, 240, "sd", VideoMp4)];
    assert ps[1..][1..] == [ps[2]];
    assert VideoLinks([ps[2]]) == [ps[2]];
    assert VideoLinks(ps[1..]) == [ps[2]];
    assert VideoLinks(ps) == [ps[0], ps[2]];
  }

  /** Two video presentations of equal minimal area: the earlier one wins. */
  lemma TieGoesToFirst()
    ensures SelectRendition([
      Presentation(640, 360, "first", VideoMp4),
      Presentation(360, 640, "second", VideoMp4)]) == Some(Presentation(640, 360, "first", VideoMp4))
  {
    var ps := [Presentation(640, 360, "first", VideoMp4), Presentation(360, 640, "second", VideoMp4)];
    assert VideoLinks(ps) == ps;
  }
}
