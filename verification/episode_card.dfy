/** Helpers of the episode card (EpisodeCard.tsx): the row of listening
    links with its trailing share button, the share title, and the
    parallax offset of the cover image on the compact layout. */
module EpisodeCard {
  import opened Types

  datatype Platform = SiteWeb | Apple | Deezer | YouTube | Spotify

  /** The order in which the card lists the platforms. */
  const PlatformOrder: seq<Platform> := [SiteWeb, Apple, Deezer, YouTube, Spotify]

  function Rank(p: Platform): nat {
    match p
    case SiteWeb => 0
    case Apple => 1
    case Deezer => 2
    case YouTube => 3
    case Spotify => 4
  }

  /** The URL the episode's links give for a platform. */
  function UrlOf(liens: Links, p: Platform): Option<string> {
    match p
    case SiteWeb => Some(liens.page)
    case Apple => liens.apple
    case Deezer => liens.deezer
    case YouTube => liens.youtube
    case Spotify => liens.spotify
  }

  /** JavaScript truthiness of an optional string: present and non-empty. */
  predicate Truthy(u: Option<string>) {
    u.Some? && u.value != ""
  }

  /** One entry of the link row: a platform with its URL, or the button
      that opens the share menu. */
  datatype LinkItem = PlatformLink(platform: Platform, url: string) | ShareButton

  /** `platforms.filter(p => p.url)` over a list of platforms. */
  function KeepTruthy(liens: Links, ps: seq<Platform>): (r: seq<LinkItem>)
    ensures |r| <= |ps|
    ensures forall i :: 0 <= i < |r| ==> r[i].PlatformLink?
    ensures forall p, u :: PlatformLink(p, u) in r <==> p in ps && Truthy(UrlOf(liens, p)) && UrlOf(liens, p).value == u
    ensures forall i :: 0 <= i < |r| ==> r[i].platform in ps
  {
    if |ps| == 0 then []
    else
      var rest := KeepTruthy(liens, ps[1..]);
      var u := UrlOf(liens, ps[0]);
      if Truthy(u) then [PlatformLink(ps[0], u.value)] + rest else rest
  }

  /** Strictly increasing ranks among the items, all of them platform links. */
  ghost predicate InPlatformOrder(items: seq<LinkItem>) {
    forall i, j :: 0 <= i < j < |items| && items[i].PlatformLink? && items[j].PlatformLink? ==>
      Rank(items[i].platform) < Rank(items[j].platform)
  }

  /** Filtering a list of platforms in increasing rank keeps increasing rank. */
  lemma {:induction false} KeepTruthyOrdered(liens: Links, ps: seq<Platform>)
    requires forall i, j :: 0 <= i < j < |ps| ==> Rank(ps[i]) < Rank(ps[j])
    ensures InPlatformOrder(KeepTruthy(liens, ps))
    decreases |ps|
  {
    if |ps| > 0 {
      var tail := ps[1..];
      forall i, j | 0 <= i < j < |tail|
        ensures Rank(tail[i]) < Rank(tail[j])
      {
        assert tail[i] == ps[i + 1] && tail[j] == ps[j + 1];
      }
      KeepTruthyOrdered(liens, tail);
      var rest := KeepTruthy(liens, tail);
      if Truthy(UrlOf(liens, ps[0])) {
        forall j | 0 <= j < |rest|
          ensures Rank(ps[0]) < Rank(rest[j].platform)
        {
          var m :| 0 <= m < |tail| && tail[m] == rest[j].platform;
          assert tail[m] == ps[m + 1];
        }
        ConsInPlatformOrder(PlatformLink(ps[0], UrlOf(liens, ps[0]).value), rest);
      }
    }
  }

  /** A platform link ranked before every item of an ordered row extends it. */
  lemma ConsInPlatformOrder(h: LinkItem, rest: seq<LinkItem>)
    requires h.PlatformLink? && InPlatformOrder(rest)
    requires forall j :: 0 <= j < |rest| ==> rest[j].PlatformLink? && Rank(h.platform) < Rank(rest[j].platform)
    ensures InPlatformOrder([h] + rest)
  {
    var r := [h] + rest;
    forall i, j | 0 <= i < j < |r| && r[i].PlatformLink? && r[j].PlatformLink?
      ensures Rank(r[i].platform) < Rank(r[j].platform)
    {
      assert r[j] == rest[j - 1];
      if i > 0 {
        assert r[i] == rest[i - 1];
      }
    }
  }

  lemma EveryPlatformListed()
    ensures forall p :: p in PlatformOrder
  {
    forall p
      ensures p in PlatformOrder
    {
      assert PlatformOrder[Rank(p)] == p;
    }
  }

  /** `platformLinks`: the platforms whose URL is truthy, in the fixed order
      Site Web, Apple, Deezer, YouTube, Spotify, then the share button. */
  function PlatformLinks(liens: Links): (r: seq<LinkItem>)
    ensures 1 <= |r| <= 6
    ensures r[|r| - 1] == ShareButton
    ensures forall i :: 0 <= i < |r| - 1 ==> r[i].PlatformLink?
    ensures forall p, u :: PlatformLink(p, u) in r <==> Truthy(UrlOf(liens, p)) && UrlOf(liens, p).value == u
    ensures InPlatformOrder(r)
  {
    var links := KeepTruthy(liens, PlatformOrder);
    KeepTruthyOrdered(liens, PlatformOrder);
    var r := links + [ShareButton];
    EveryPlatformListed();
    assert forall p, u :: PlatformLink(p, u) in r <==> PlatformLink(p, u) in links;
    r
  }

  /** The website link leads the row whenever the page URL is non-empty. */
  lemma WebsiteFirst(liens: Links)
    requires liens.page != ""
    ensures PlatformLinks(liens)[0] == PlatformLink(SiteWeb, liens.page)
  {
  }

  const ShareTitleSuffix := " - Soluble(s)"

  /** `shareTitle`: the episode title followed by the show's name. */
  function ShareTitle(titre: string): (r: string)
    ensures |r| == |titre| + |ShareTitleSuffix|
    ensures r[..|titre|] == titre && r[|titre|..] == ShareTitleSuffix
  {
    titre + ShareTitleSuffix
  }

  /** The parallax branch of `handleScroll`: the image offset follows the
      scroll position, capped at the image height, and is left alone while
      the image height is not yet known (zero). */
  function ParallaxOffset(current: int, imageHeight: int, scrollTop: int): (r: int)
    ensures imageHeight <= 0 ==> r == current
    ensures imageHeight > 0 ==> r <= imageHeight && r <= scrollTop
    ensures imageHeight > 0 ==> r == scrollTop || r == imageHeight
  {
    if imageHeight > 0 then
      if scrollTop <= imageHeight then scrollTop else imageHeight
    else current
  }
}
