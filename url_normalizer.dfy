// convert_youtube_music_url: YouTube Music playlist links are rewritten to
// the regular YouTube host; every other link is passed through.
module UrlNormalizer {
  import opened Text

  const MusicHost: string := "music.youtube.com"
  const WwwHost: string := "www.youtube.com"
  const PlaylistMarker: string := "music.youtube.com/playlist"

  /** The rewrite that `re.sub(r"music\.youtube\.com", ...)` performs: the
      dots are escaped, so the pattern is matched literally. */
  function RewriteHost(url: string): string {
    ReplaceAll(url, MusicHost, WwwHost)
  }

  /** The URL changes exactly when it contains a YouTube Music playlist
      path; a changed URL is strictly shorter, since every rewrite turns
      seventeen characters into fifteen. */
  function ConvertYoutubeMusicUrl(url: string): (r: string)
    ensures r == url <==> !Contains(url, PlaylistMarker)
    ensures r != url ==> |r| < |url|
  {
    if Contains(url, PlaylistMarker) then
      var i :| 0 <= i <= |url| && MatchAt(url, PlaylistMarker, i);
      assert url[i..i + |MusicHost|] == url[i..i + |PlaylistMarker|][..|MusicHost|];
      assert MatchAt(url, MusicHost, i);
      ReplaceAllShrinks(url, MusicHost, WwwHost);
      RewriteHost(url)
    else
      url
  }

  /** A playlist URL whose host is its first occurrence of the YouTube
      Music host name keeps its scheme, path and query: only the host is
      replaced. */
  lemma ConvertPlaylistUrl(scheme: string, rest: string)
    requires forall i | 0 <= i < |scheme| :: !MatchAt(scheme + MusicHost + rest, MusicHost, i)
    requires !Contains(rest, MusicHost)
    requires |rest| >= 9 && rest[..9] == "/playlist"
    ensures ConvertYoutubeMusicUrl(scheme + MusicHost + rest) == scheme + WwwHost + rest
  {
    var url := scheme + MusicHost + rest;
    assert url[|scheme|..|scheme| + |MusicHost|] == MusicHost;
    assert url[|scheme|..|scheme| + |PlaylistMarker|] == MusicHost + rest[..9];
    assert MatchAt(url, PlaylistMarker, |scheme|);
    ReplaceAllAtFirstMatch(url, MusicHost, WwwHost, |scheme|);
    assert url[..|scheme|] == scheme;
    var head := scheme + MusicHost;
    assert url == head + rest;
    forall j | |head| <= j <= |url|
      ensures !MatchAt(url, MusicHost, j)
    {
      MatchAtShift(head, rest, MusicHost, j - |head|);
    }
    ReplaceFromNoMatch(url, MusicHost, WwwHost, |head|);
    assert url[|head|..] == rest;
  }
}
