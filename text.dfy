/**
 String helpers of the academy: the YouTube id shown in the lesson editor, the
 slug given to a new module, and the admin's shortened question text. The
 Python string operations they use (`in`, `split`, `lower`, `strip`, `replace`,
 slicing) are modelled on `seq<char>`.
 */
module Text {
  import opened Common

  // ---------------------------------------------------------------- substrings

  /** `pat` occurs in `s` starting at index `i`. */
  predicate OccursAt(s: string, pat: string, i: nat) {
    i + |pat| <= |s| && s[i..i + |pat|] == pat
  }

  /** The first occurrence of `pat` in `s` at or after `from`. */
  function IndexFrom(s: string, pat: string, from: nat): (r: Option<nat>)
    ensures r.Some? ==> from <= r.value && OccursAt(s, pat, r.value)
    ensures r.Some? ==> forall j: nat :: from <= j < r.value ==> !OccursAt(s, pat, j)
    ensures r.None? ==> forall j: nat :: from <= j ==> !OccursAt(s, pat, j)
    decreases |s| - from
  {
    if from + |pat| > |s| then None
    else if s[from..from + |pat|] == pat then Some(from)
    else IndexFrom(s, pat, from + 1)
  }

  /** The first occurrence of `pat` in `s`, as Python's `s.find(pat)` when it is not -1. */
  function IndexOf(s: string, pat: string): (r: Option<nat>)
    ensures r.Some? ==> OccursAt(s, pat, r.value) && forall j: nat :: j < r.value ==> !OccursAt(s, pat, j)
    ensures r.None? ==> forall j: nat :: !OccursAt(s, pat, j)
  {
    IndexFrom(s, pat, 0)
  }

  /** Python's `pat in s` for strings: `pat` occurs somewhere in `s`. */
  predicate Occurs(s: string, pat: string) {
    IndexOf(s, pat).Some?
  }

  /** An occurrence anywhere makes `Occurs` hold. */
  lemma OccursWitness(s: string, pat: string, i: nat)
    requires OccursAt(s, pat, i)
    ensures Occurs(s, pat)
  {
  }

  /** An occurrence inside a prefix of `s` is an occurrence in `s`. */
  lemma OccursInPrefix(s: string, pat: string, k: nat, j: nat)
    requires k <= |s|
    requires OccursAt(s[..k], pat, j)
    ensures OccursAt(s, pat, j)
  {
    assert s[..k][j..j + |pat|] == s[j..j + |pat|];
  }

  // ---------------------------------------------------------------- split

  /** Python's `s.split(sep)` for a non-empty separator. */
  function Split(s: string, sep: string): (parts: seq<string>)
    requires |sep| > 0
    ensures |parts| >= 1
    ensures Occurs(s, sep) ==> |parts| >= 2
    decreases |s|
  {
    var r := IndexOf(s, sep);
    if r.None? then [s] else [s[..r.value]] + Split(s[r.value + |sep|..], sep)
  }

  /** Python's `sep.join(parts)`. */
  function Join(parts: seq<string>, sep: string): (s: string)
    decreases |parts|
  {
    if |parts| == 0 then ""
    else if |parts| == 1 then parts[0]
    else parts[0] + sep + Join(parts[1..], sep)
  }

  /** Joining the pieces of a split with the same separator gives back the string. */
  lemma {:induction false} SplitJoin(s: string, sep: string)
    requires |sep| > 0
    ensures Join(Split(s, sep), sep) == s
    decreases |s|
  {
    var r := IndexOf(s, sep);
    if r.Some? {
      var i := r.value;
      var rest := s[i + |sep|..];
      SplitJoin(rest, sep);
      var parts := Split(s, sep);
      assert parts[0] == s[..i];
      assert parts[1..] == Split(rest, sep);
      assert s[i..i + |sep|] == sep;
      assert s == s[..i] + s[i..i + |sep|] + rest;
    }
  }

  /** The first piece of a split is a prefix of the string. */
  lemma SplitHeadIsPrefix(s: string, sep: string)
    requires |sep| > 0
    ensures var head := Split(s, sep)[0];
            |head| <= |s| && s[..|head|] == head
  {
  }

  /** The first piece of a split is a prefix of the string and holds no separator. */
  lemma SplitHead(s: string, sep: string)
    requires |sep| > 0
    ensures var head := Split(s, sep)[0];
            |head| <= |s| && s[..|head|] == head && !Occurs(head, sep)
  {
    SplitHeadIsPrefix(s, sep);
    var r := IndexOf(s, sep);
    if r.Some? {
      var head := s[..r.value];
      var h := IndexOf(head, sep);
      if h.Some? {
        OccursInPrefix(s, sep, r.value, h.value);
      }
    }
  }

  /** The first piece of a split ends at the end of the string or where the separator starts. */
  lemma SplitHeadEnds(s: string, sep: string)
    requires |sep| > 0
    ensures var head := Split(s, sep)[0];
            |head| == |s| || OccursAt(s, sep, |head|)
  {
  }


  /** When the separator first occurs at `i`, the second piece starts right after it. */
  lemma SplitSecond(s: string, sep: string, i: nat)
    requires |sep| > 0 && IndexOf(s, sep) == Some(i)
    ensures |Split(s, sep)| >= 2 && Split(s, sep)[1] == Split(s[i + |sep|..], sep)[0]
  {
  }

  // ---------------------------------------------------------------- YouTube id

  /**
   The video id the lesson editor extracts from a lesson's video URL (an unset
   URL counts as ""). A short link's id is cut at the first "?", a watch URL's
   at the first "&"; any other URL gives "".
   */
  function YouTubeId(videoUrl: Option<string>): (id: string)
  {
    var url := OrElse(videoUrl, "");
    if Occurs(url, "youtu.be/") then Split(Split(url, "youtu.be/")[1], "?")[0]
    else if Occurs(url, "watch?v=") then Split(Split(url, "watch?v=")[1], "&")[0]
    else if Occurs(url, "youtube.com/watch?v=") then
      // the source repeats the watch-URL extraction here; the branch is dead
      ThirdBranchUnreachable(url);
      assert false;
      ""
    else ""
  }

  /**
   The piece `Split(Split(url, marker)[1], stop)[0]` directly follows the first
   occurrence of `marker` in `url` and holds no `stop`.
   */
  lemma PieceAfterMarker(url: string, marker: string, stop: string, k: nat)
    requires |marker| > 0 && |stop| > 0 && IndexOf(url, marker) == Some(k)
    ensures var piece := Split(Split(url, marker)[1], stop)[0];
            OccursAt(url, marker + piece, k) && !Occurs(piece, stop)
  {
    SplitSecond(url, marker, k);
    PieceFollows(url, marker, k, Split(url, marker)[1], stop);
  }

  /** The piece that follows the first marker holds no marker. */
  lemma PieceHasNoMarker(url: string, marker: string, stop: string, k: nat)
    requires |marker| > 0 && |stop| > 0 && IndexOf(url, marker) == Some(k)
    ensures !Occurs(Split(Split(url, marker)[1], stop)[0], marker)
  {
    SplitSecond(url, marker, k);
    var rest := Split(url[k + |marker|..], marker)[0];
    SplitHead(url[k + |marker|..], marker);
    SplitHeadIsPrefix(rest, stop);
    NoneInPrefix(rest, |Split(rest, stop)[0]|, marker);
  }

  /**
   The piece that follows the first marker is as long as it can be: within the
   text after the marker it ends at the end, at a stop string or at the next
   marker.
   */
  lemma PieceIsMaximal(url: string, marker: string, stop: string, k: nat)
    requires |marker| > 0 && |stop| > 0 && IndexOf(url, marker) == Some(k)
    ensures var after := url[k + |marker|..];
            var n := |Split(Split(url, marker)[1], stop)[0]|;
            n == |after| || OccursAt(after, stop, n) || OccursAt(after, marker, n)
  {
    SplitSecond(url, marker, k);
    HeadOfHeadEnds(url[k + |marker|..], marker, stop);
  }

  /** Cutting `s` at the first `marker` and that head at the first `stop` ends at the end of `s`, at a `stop` or at a `marker`. */
  lemma HeadOfHeadEnds(s: string, marker: string, stop: string)
    requires |marker| > 0 && |stop| > 0
    ensures var n := |Split(Split(s, marker)[0], stop)[0]|;
            n == |s| || OccursAt(s, stop, n) || OccursAt(s, marker, n)
  {
    var rest := Split(s, marker)[0];
    var n := |Split(rest, stop)[0]|;
    SplitHeadIsPrefix(s, marker);
    SplitHeadEnds(s, marker);
    SplitHeadEnds(rest, stop);
    if n < |rest| {
      OccursInPrefix(s, stop, |rest|, n);
    }
  }










  /** The piece cut from the text after an occurrence of `marker` follows that occurrence. */
  lemma PieceFollows(url: string, marker: string, k: nat, rest: string, stop: string)
    requires |marker| > 0 && |stop| > 0 && OccursAt(url, marker, k)
    requires rest == Split(url[k + |marker|..], marker)[0]
    ensures OccursAt(url, marker + Split(rest, stop)[0], k) && !Occurs(Split(rest, stop)[0], stop)
  {
    var after := url[k + |marker|..];
    var piece := Split(rest, stop)[0];
    SplitHeadIsPrefix(after, marker);
    SplitHead(rest, stop);
    PrefixOfPrefix(after, rest, piece);
    FollowedBy(url, marker, piece, k);
  }

  /** A prefix of a string without `pat` holds no `pat` either. */
  lemma NoneInPrefix(s: string, k: nat, pat: string)
    requires k <= |s| && !Occurs(s, pat)
    ensures !Occurs(s[..k], pat)
  {
    var h := IndexOf(s[..k], pat);
    if h.Some? {
      OccursInPrefix(s, pat, k, h.value);
      OccursWitness(s, pat, h.value);
    }
  }


  /** A prefix of a prefix of `s` is a prefix of `s`. */
  lemma PrefixOfPrefix(s: string, p: string, q: string)
    requires |p| <= |s| && s[..|p|] == p
    requires |q| <= |p| && p[..|q|] == q
    ensures |q| <= |s| && s[..|q|] == q
  {
    assert s[..|q|] == s[..|p|][..|q|];
  }

  /** An occurrence of `a` at `k` followed by `b` is an occurrence of `a + b`. */
  lemma FollowedBy(s: string, a: string, b: string, k: nat)
    requires OccursAt(s, a, k)
    requires |b| <= |s| - k - |a| && s[k + |a|..][..|b|] == b
    ensures OccursAt(s, a + b, k)
  {
    assert s[k + |a|..k + |a| + |b|] == b;
    assert s[k..k + |a| + |b|] == s[k..k + |a|] + s[k + |a|..k + |a| + |b|];
  }

  /**
   A short link's id is the text right after the first "youtu.be/", taken up
   to the end of the URL, the next "?" or the next "youtu.be/", whichever
   comes first.
   */
  lemma ShortLinkId(url: string)
    requires Occurs(url, "youtu.be/")
    ensures var id := YouTubeId(Some(url));
            var k := IndexOf(url, "youtu.be/").value;
            && OccursAt(url, "youtu.be/" + id, k) && !Occurs(id, "?") && !Occurs(id, "youtu.be/")
            && var after := url[k + |"youtu.be/"|..];
               |id| == |after| || OccursAt(after, "?", |id|) || OccursAt(after, "youtu.be/", |id|)
  {
    var k := IndexOf(url, "youtu.be/").value;
    assert YouTubeId(Some(url)) == Split(Split(url, "youtu.be/")[1], "?")[0];
    PieceAfterMarker(url, "youtu.be/", "?", k);
    PieceHasNoMarker(url, "youtu.be/", "?", k);
    PieceIsMaximal(url, "youtu.be/", "?", k);
  }

  /** Without "youtu.be/", a watch URL's id follows "watch?v=" and contains no "&". */
  lemma WatchId(url: string)
    requires !Occurs(url, "youtu.be/") && Occurs(url, "watch?v=")
    ensures var id := YouTubeId(Some(url));
            var k := IndexOf(url, "watch?v=").value;
            && OccursAt(url, "watch?v=" + id, k) && !Occurs(id, "&") && !Occurs(id, "watch?v=")
            && var after := url[k + |"watch?v="|..];
               |id| == |after| || OccursAt(after, "&", |id|) || OccursAt(after, "watch?v=", |id|)
  {
    var k := IndexOf(url, "watch?v=").value;
    assert YouTubeId(Some(url)) == Split(Split(url, "watch?v=")[1], "&")[0];
    PieceAfterMarker(url, "watch?v=", "&", k);
    PieceHasNoMarker(url, "watch?v=", "&", k);
    PieceIsMaximal(url, "watch?v=", "&", k);
  }

  /** A URL with neither marker, or no URL at all, gives the empty id. */
  lemma NoMarkerNoId(videoUrl: Option<string>)
    requires videoUrl.Some? ==> !Occurs(videoUrl.value, "youtu.be/") && !Occurs(videoUrl.value, "watch?v=")
    ensures YouTubeId(videoUrl) == ""
  {
    var url := OrElse(videoUrl, "");
    if Occurs(url, "youtube.com/watch?v=") {
      ThirdBranchUnreachable(url);
    }
  }

  /** An occurrence of `a + b` contains an occurrence of `b` right after `a`. */
  lemma OccursAfter(s: string, a: string, b: string, i: nat)
    requires OccursAt(s, a + b, i)
    ensures OccursAt(s, b, i + |a|)
  {
    assert s[i + |a|..i + |a| + |b|] == s[i..i + |a| + |b|][|a|..];
  }

  /** Every URL containing "youtube.com/watch?v=" contains "watch?v=", so the third branch never runs. */
  lemma ThirdBranchUnreachable(url: string)
    ensures Occurs(url, "youtube.com/watch?v=") ==> Occurs(url, "watch?v=")
  {
    if Occurs(url, "youtube.com/watch?v=") {
      var i := IndexOf(url, "youtube.com/watch?v=").value;
      assert "youtube.com/" + "watch?v=" == "youtube.com/watch?v=";
      OccursAfter(url, "youtube.com/", "watch?v=", i);
      OccursWitness(url, "watch?v=", i + 12);
    }
  }

  // ---------------------------------------------------------------- slug

  /** The characters Python's `str.isspace` accepts. */
  predicate IsSpace(c: char) {
    c == ' ' || '\t' <= c <= '\r' || '\U{1c}' <= c <= '\U{1f}' || c == '\U{85}' || c == '\U{a0}' ||
    c == '\U{1680}' || '\U{2000}' <= c <= '\U{200a}' || c == '\U{2028}' || c == '\U{2029}' ||
    c == '\U{202f}' || c == '\U{205f}' || c == '\U{3000}'
  }

  predicate IsUpper(c: char) {
    'A' <= c <= 'Z'
  }

  function LowerChar(c: char): (d: char)
    ensures !IsUpper(d)
    ensures IsSpace(d) <==> IsSpace(c)
    ensures !IsUpper(c) ==> d == c
  {
    if IsUpper(c) then (c as int + 32) as char else c
  }

  /** `str.lower`, on the ASCII letters. */
  function Lower(s: string): (r: string)
    ensures |r| == |s|
    ensures forall i :: 0 <= i < |s| ==> r[i] == LowerChar(s[i])
  {
    if |s| == 0 then "" else [LowerChar(s[0])] + Lower(s[1..])
  }

  /** `s` without its leading whitespace. */
  function TrimStart(s: string): (r: string)
    ensures |r| <= |s| && r == s[|s| - |r|..]
    ensures forall i :: 0 <= i < |s| - |r| ==> IsSpace(s[i])
    ensures |r| > 0 ==> !IsSpace(r[0])
  {
    if |s| > 0 && IsSpace(s[0]) then TrimStart(s[1..]) else s
  }

  /** `s` without its trailing whitespace. */
  function TrimEnd(s: string): (r: string)
    ensures |r| <= |s| && r == s[..|r|]
    ensures forall i :: |r| <= i < |s| ==> IsSpace(s[i])
    ensures |r| > 0 ==> !IsSpace(r[|r| - 1])
  {
    if |s| > 0 && IsSpace(s[|s| - 1]) then TrimEnd(s[..|s| - 1]) else s
  }

  /** How many leading characters `str.strip()` removes. */
  function StripOffset(s: string): (a: nat)
    ensures a <= |s|
  {
    |s| - |TrimStart(s)|
  }

  /** `str.strip()`: neither end of the result is whitespace, and only whitespace was removed. */
  function Strip(s: string): (r: string)
    ensures StripOffset(s) + |r| <= |s| && r == s[StripOffset(s)..StripOffset(s) + |r|]
    ensures forall i :: 0 <= i < StripOffset(s) ==> IsSpace(s[i])
    ensures forall i :: StripOffset(s) + |r| <= i < |s| ==> IsSpace(s[i])
    ensures |r| > 0 ==> !IsSpace(r[0]) && !IsSpace(r[|r| - 1])
  {
    TrimEnd(TrimStart(s))
  }

  /** `s.replace(" ", "-")`. */
  function DashForSpace(s: string): (r: string)
    ensures |r| == |s|
    ensures forall i :: 0 <= i < |s| ==> r[i] == (if s[i] == ' ' then '-' else s[i])
  {
    if |s| == 0 then "" else [if s[0] == ' ' then '-' else s[0]] + DashForSpace(s[1..])
  }

  /** The slug a new module gets from its title. */
  function Slug(title: string): (slug: string)
  {
    DashForSpace(Strip(Lower(title)))
  }

  predicate NoUpper(s: string) {
    forall i :: 0 <= i < |s| ==> !IsUpper(s[i])
  }

  /** Stripping only removes characters, so it adds no capital letter. */
  lemma StripKeepsNoUpper(s: string)
    requires NoUpper(s)
    ensures NoUpper(Strip(s))
  {
    var a := StripOffset(s);
    NoUpperSlice(s, a, a + |Strip(s)|);
  }

  /** A slice of a string without capital letters has none either. */
  lemma NoUpperSlice(s: string, a: nat, b: nat)
    requires a <= b <= |s| && NoUpper(s)
    ensures NoUpper(s[a..b])
  {
    forall i | 0 <= i < b - a
      ensures !IsUpper(s[a..b][i])
    {
      assert s[a..b][i] == s[a + i];
    }
  }

  /** Neither end of `s` is whitespace. */
  predicate TrimmedEnds(s: string) {
    |s| > 0 ==> !IsSpace(s[0]) && !IsSpace(s[|s| - 1])
  }

  /** Replacing spaces by dashes leaves no space, adds no capital letter and keeps the trimmed ends. */
  lemma DashShape(s: string)
    requires NoUpper(s) && TrimmedEnds(s)
    ensures var r := DashForSpace(s);
            (forall i :: 0 <= i < |r| ==> r[i] != ' ' && !IsUpper(r[i])) && TrimmedEnds(r)
  {
  }

  /** A slug holds no space and no capital letter, does not start or end with whitespace, and is no longer than the title. */
  lemma SlugShape(title: string)
    ensures var slug := Slug(title);
            |slug| <= |title| &&
            (forall i :: 0 <= i < |slug| ==> slug[i] != ' ' && !IsUpper(slug[i])) &&
            (|slug| > 0 ==> !IsSpace(slug[0]) && !IsSpace(slug[|slug| - 1]))
  {
    var lower := Lower(title);
    var stripped := Strip(lower);
    assert NoUpper(lower);
    StripKeepsNoUpper(lower);
    assert TrimmedEnds(stripped);
    DashShape(stripped);
    assert Slug(title) == DashForSpace(stripped);
  }

  /** Slugging a slug changes nothing. */
  lemma SlugIdempotent(title: string)
    ensures Slug(Slug(title)) == Slug(title)
  {
    var slug := Slug(title);
    SlugShape(title);
    assert Lower(slug) == slug;
    assert TrimStart(slug) == slug;
    assert TrimEnd(slug) == slug;
    assert DashForSpace(slug) == slug;
  }

  // ---------------------------------------------------------------- admin text

  /** The question text shown in the admin list: cut to 60 characters plus "..." when longer. */
  function TextShort(text: string): (r: string)
    ensures |text| <= 60 ==> r == text
    ensures |text| > 60 ==> |r| == 63 && r[..60] == text[..60] && r[60..] == "..."
    ensures |r| <= 63
    ensures var n := if |text| < 60 then |text| else 60;
            |r| >= n && r[..n] == text[..n]
  {
    if |text| > 60 then text[..60] + "..." else text
  }
}
