/**
 * `getYoutubeId`: the video id of a stored note link, taken with the
 * regular expression
 *   ^.*(youtu\.be\/|v\/|u\/\w\/|embed\/|watch\?v=|\&v=|shorts\/)([^#\&\?]*).*
 * and accepted only when the second group has exactly 11 characters.
 *
 * The regular expression is modelled by hand. `^.*` is greedy and `.`
 * stops at line terminators, so the engine tries the marker positions of
 * the first line from the last one backwards; the seven alternatives begin
 * with seven different characters, so at most one of them matches at a
 * position; the second group then takes the longest run without `#`, `&`
 * or `?`, and the trailing `.*` always succeeds. The first position that
 * carries a marker therefore decides the match, whatever its run length.
 */
module Youtube {
  import opened Wrappers
  import opened Text

  /** `\w`: an ASCII letter, digit or underscore. */
  predicate IsWordChar(c: char)
  {
    ('a' <= c <= 'z') || ('A' <= c <= 'Z') || ('0' <= c <= '9') || c == '_'
  }

  /** The characters `.` does not match. */
  predicate IsLineTerminator(c: char)
  {
    c == '\n' || c == '\r' || c == '\U{2028}' || c == '\U{2029}'
  }

  /** The characters that end the id group `[^#\&\?]*`. */
  predicate IsIdStop(c: char)
  {
    c == '#' || c == '&' || c == '?'
  }

  /**
   * The length of the alternative of the first group that matches at `p`,
   * or 0 when none does; each alternative is compared character by character.
   */
  function MarkerLength(s: string, p: nat): (n: nat)
    ensures n > 0 ==> p + n <= |s|
  {
    if p + 9 <= |s| && s[p] == 'y' && s[p + 1] == 'o' && s[p + 2] == 'u' && s[p + 3] == 't'
       && s[p + 4] == 'u' && s[p + 5] == '.' && s[p + 6] == 'b' && s[p + 7] == 'e' && s[p + 8] == '/' then 9
    else if p + 2 <= |s| && s[p] == 'v' && s[p + 1] == '/' then 2
    else if p + 4 <= |s| && s[p] == 'u' && s[p + 1] == '/' && IsWordChar(s[p + 2]) && s[p + 3] == '/' then 4
    else if p + 6 <= |s| && s[p] == 'e' && s[p + 1] == 'm' && s[p + 2] == 'b' && s[p + 3] == 'e'
       && s[p + 4] == 'd' && s[p + 5] == '/' then 6
    else if p + 8 <= |s| && s[p] == 'w' && s[p + 1] == 'a' && s[p + 2] == 't' && s[p + 3] == 'c'
       && s[p + 4] == 'h' && s[p + 5] == '?' && s[p + 6] == 'v' && s[p + 7] == '=' then 8
    else if p + 3 <= |s| && s[p] == '&' && s[p + 1] == 'v' && s[p + 2] == '=' then 3
    else if p + 7 <= |s| && s[p] == 's' && s[p + 1] == 'h' && s[p + 2] == 'o' && s[p + 3] == 'r'
       && s[p + 4] == 't' && s[p + 5] == 's' && s[p + 6] == '/' then 7
    else 0
  }

  /** The first characters of the seven alternatives. */
  predicate IsMarkerStart(c: char)
  {
    c == 'y' || c == 'v' || c == 'u' || c == 'e' || c == 'w' || c == '&' || c == 's'
  }

  /** A marker can only start at one of the seven first characters. */
  lemma MarkerNeedsStart(s: string, p: nat)
    ensures MarkerLength(s, p) > 0 ==> p < |s| && IsMarkerStart(s[p])
  {
  }

  /** Where the first line ends: the greedy `^.*` can stop at any position up to here. */
  function LineEnd(s: string): (e: nat)
    ensures e <= |s|
    ensures forall k :: 0 <= k < e ==> !IsLineTerminator(s[k])
    ensures e < |s| ==> IsLineTerminator(s[e])
  {
    if s == [] || IsLineTerminator(s[0]) then 0 else 1 + LineEnd(s[1..])
  }

  /** The last position at or before `p` where a marker starts (the backtracking of `^.*`). */
  function LastMarker(s: string, p: nat): (r: Option<nat>)
    ensures r.Some? ==> r.value <= p && MarkerLength(s, r.value) > 0
    ensures r.Some? ==> forall q :: r.value < q <= p ==> MarkerLength(s, q) == 0
    ensures r.None? ==> forall q :: 0 <= q <= p ==> MarkerLength(s, q) == 0
  {
    if MarkerLength(s, p) > 0 then Some(p)
    else if p == 0 then None
    else LastMarker(s, p - 1)
  }

  /** The end of the longest run from `i` on that has no `#`, `&` or `?` (the greedy second group). */
  function RunEnd(s: string, i: nat): (j: nat)
    requires i <= |s|
    ensures i <= j <= |s|
    ensures forall k :: i <= k < j ==> !IsIdStop(s[k])
    ensures j == |s| || IsIdStop(s[j])
    decreases |s| - i
  {
    if i == |s| || IsIdStop(s[i]) then i else RunEnd(s, i + 1)
  }

  /**
   * `getYoutubeId(url)`: nothing for an absent or empty link; otherwise the
   * second group of the match when it is exactly 11 characters long.
   */
  function GetYoutubeId(url: Option<string>): (r: Option<string>)
    ensures url.None? || url.value == [] ==> r.None?
    ensures r.Some? ==> |r.value| == 11
    ensures r.Some? ==> forall k :: 0 <= k < |r.value| ==> !IsIdStop(r.value[k])
    ensures r.Some? ==> exists i: nat :: OccursAt(url.value, r.value, i)
  {
    if url.None? || url.value == [] then None
    else
      var u := url.value;
      match LastMarker(u, LineEnd(u))
      case None => None
      case Some(p) =>
        var start := p + MarkerLength(u, p);
        var id := u[start..RunEnd(u, start)];
        assert OccursAt(u, id, start);
        if |id| == 11 then Some(id) else None
  }

  /** `p` is the marker position the regular expression settles on: the last one in the first line. */
  predicate DecidingMarker(u: string, p: nat)
  {
    p <= LineEnd(u) && MarkerLength(u, p) > 0
    && forall q :: p < q <= LineEnd(u) ==> MarkerLength(u, q) == 0
  }

  /** `id` is a whole run of 11 id characters starting at `i`: nothing but an id stop or the end follows. */
  predicate ElevenCharRun(u: string, i: nat, id: string)
  {
    |id| == 11 && OccursAt(u, id, i)
    && (forall k :: 0 <= k < 11 ==> !IsIdStop(id[k]))
    && (i + 11 == |u| || IsIdStop(u[i + 11]))
  }

  /** Only the last marker of the first line can be the deciding one. */
  lemma DecidingMarkerIsLast(u: string, p: nat)
    requires DecidingMarker(u, p)
    ensures LastMarker(u, LineEnd(u)) == Some(p)
  {
    var r := LastMarker(u, LineEnd(u));
    assert r.Some?;
    assert !(r.value < p) && !(p < r.value);
  }

  /** An 11-character run after the marker is exactly what the greedy group captures. */
  lemma RunIsCaptured(u: string, i: nat, id: string)
    requires ElevenCharRun(u, i, id)
    ensures RunEnd(u, i) == i + 11 && u[i..RunEnd(u, i)] == id
  {
    var j := RunEnd(u, i);
    assert forall k :: i <= k < i + 11 ==> u[k] == id[k - i];
  }

  /** What a returned id says about the link. */
  lemma GetYoutubeIdSound(u: string, id: string)
    requires GetYoutubeId(Some(u)) == Some(id)
    ensures exists p: nat :: DecidingMarker(u, p) && ElevenCharRun(u, p + MarkerLength(u, p), id)
  {
    var p :| LastMarker(u, LineEnd(u)) == Some(p);
    var start := p + MarkerLength(u, p);
    var j := RunEnd(u, start);
    assert u[start..j] == id;
    assert DecidingMarker(u, p);
    assert OccursAt(u, id, start);
    assert ElevenCharRun(u, start, id);
  }

  /** A deciding marker followed by a whole 11-character run yields that run. */
  lemma GetYoutubeIdComplete(u: string, p: nat, id: string)
    requires u != []
    requires DecidingMarker(u, p) && ElevenCharRun(u, p + MarkerLength(u, p), id)
    ensures GetYoutubeId(Some(u)) == Some(id)
  {
    DecidingMarkerIsLast(u, p);
    var start := p + MarkerLength(u, p);
    RunIsCaptured(u, start, id);
    assert u[start..RunEnd(u, start)] == id;
  }

  /**
   * The declarative reading of the match: a non-empty link yields `id`
   * exactly when the last marker of its first line is followed by a whole
   * 11-character run equal to `id`.
   */
  lemma GetYoutubeIdSpec(u: string, id: string)
    requires u != []
    ensures GetYoutubeId(Some(u)) == Some(id) <==>
            exists p: nat :: DecidingMarker(u, p) && ElevenCharRun(u, p + MarkerLength(u, p), id)
  {
    if GetYoutubeId(Some(u)) == Some(id) {
      GetYoutubeIdSound(u, id);
    }
    if exists p: nat :: DecidingMarker(u, p) && ElevenCharRun(u, p + MarkerLength(u, p), id) {
      var p: nat :| DecidingMarker(u, p) && ElevenCharRun(u, p + MarkerLength(u, p), id);
      GetYoutubeIdComplete(u, p, id);
    }
  }

  /**
   * The run after the deciding marker alone settles the outcome: an id comes
   * back exactly when that run is 11 characters long, even if an earlier
   * marker on the line is followed by a well-formed id.
   */
  lemma DecidingRunSettles(u: string, p: nat)
    requires u != [] && DecidingMarker(u, p)
    ensures var start := p + MarkerLength(u, p);
            GetYoutubeId(Some(u)).Some? <==> RunEnd(u, start) == start + 11
  {
    DecidingMarkerIsLast(u, p);
  }

  /** Whether a marker starts at a position depends only on the text from there on. */
  lemma MarkerLengthShift(x: string, y: string, k: nat)
    ensures MarkerLength(x + y, |x| + k) == MarkerLength(y, k)
  {
    if k < |y| {
      assert forall i :: k <= i < |y| ==> (x + y)[|x| + i] == y[i];
    }
  }

  /** `watch?v=` followed by a marker-free id holds exactly one marker, at its start. */
  lemma WatchMarkerAlone(id: string)
    requires forall k :: 0 <= k <= |id| ==> MarkerLength(id, k) == 0
    ensures MarkerLength("watch?v=" + id, 0) == 8
    ensures forall j :: 0 < j <= 8 + |id| ==> MarkerLength("watch?v=" + id, j) == 0
  {
    var w := "watch?v=";
    var t := w + id;
    assert forall k :: 0 <= k < 8 ==> t[k] == w[k];
    forall j | 0 < j <= 8 + |id| ensures MarkerLength(t, j) == 0 {
      if j >= 8 {
        MarkerLengthShift(w, id, j - 8);
      } else {
        MarkerNeedsStart(t, j);
        assert t[j] == w[j];
        if j == 6 { assert t[7] == '='; }
      }
    }
  }

  /**
   * A link whose first line ends in `watch?v=` and an 11-character id with
   * no marker of its own yields that id, whatever markers come earlier.
   */
  lemma WatchLinkYieldsId(a: string, id: string)
    requires forall k :: 0 <= k < |a| ==> !IsLineTerminator(a[k])
    requires |id| == 11
    requires forall k :: 0 <= k < 11 ==> !IsIdStop(id[k]) && !IsLineTerminator(id[k])
    requires forall k :: 0 <= k <= 11 ==> MarkerLength(id, k) == 0
    ensures GetYoutubeId(Some(a + "watch?v=" + id)) == Some(id)
  {
    var t := "watch?v=" + id;
    var u := a + t;
    assert a + "watch?v=" + id == u;
    forall k | 0 <= k < |u| ensures !IsLineTerminator(u[k]) {
      if k < |a| { assert u[k] == a[k]; }
      else if k < |a| + 8 { assert u[k] == t[k - |a|]; }
      else { assert u[k] == id[k - |a| - 8]; }
    }
    assert LineEnd(u) == |u|;
    WatchMarkerAlone(id);
    MarkerLengthShift(a, t, 0);
    forall q | |a| < q <= |u| ensures MarkerLength(u, q) == 0 {
      MarkerLengthShift(a, t, q - |a|);
    }
    assert DecidingMarker(u, |a|);
    assert u[|a| + 8..|a| + 19] == id;
    GetYoutubeIdComplete(u, |a|, id);
  }
}
