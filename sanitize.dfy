/** The three regular-expression substitutions of `sanitize` (markov.py:89-95),
    each written out as the left-to-right scan that `re.sub` performs: at every
    position the pattern is tried; a match is dropped and the scan resumes
    after it, otherwise the character is kept. Character classes are ASCII. */
module Sanitizer {

  /** `\w`: an ASCII letter, digit or underscore (`\d` adds nothing to it). */
  predicate IsWordChar(c: char) {
    ('a' <= c <= 'z') || ('A' <= c <= 'Z') || ('0' <= c <= '9') || c == '_'
  }

  /** `\s`: ASCII whitespace. */
  predicate IsSpace(c: char) {
    c == ' ' || c == '\t' || c == '\n' || c == '\r' || c == '\U{000B}' || c == '\U{000C}'
  }

  predicate IsTagSign(c: char) {
    c == '#' || c == '@'
  }

  /** The end of the run of word characters that starts at `i`. */
  function WordEnd(s: string, i: nat): (e: nat)
    requires i <= |s|
    ensures i <= e <= |s|
    ensures forall j :: i <= j < e ==> IsWordChar(s[j])
    ensures e == |s| || !IsWordChar(s[e])
    decreases |s| - i
  {
    if i == |s| || !IsWordChar(s[i]) then i else WordEnd(s, i + 1)
  }

  /** The end of the run of non-whitespace characters that starts at `i`. */
  function NonSpaceEnd(s: string, i: nat): (e: nat)
    requires i <= |s|
    ensures i <= e <= |s|
    ensures forall j :: i <= j < e ==> !IsSpace(s[j])
    ensures e == |s| || IsSpace(s[e])
    decreases |s| - i
  {
    if i == |s| || IsSpace(s[i]) then i else NonSpaceEnd(s, i + 1)
  }

  // ---------------------------------------------------------------- hashtags and handles

  /** `[#@][\w\d]+` matches at the start of `s`. */
  predicate TagAt(s: string) {
    |s| > 1 && IsTagSign(s[0]) && IsWordChar(s[1])
  }

  /** No hashtag or handle is left anywhere in `s`. */
  predicate NoTag(s: string) {
    forall i :: 0 <= i < |s| ==> !TagAt(s[i..])
  }

  /** Drop every hashtag and handle: the sign and the whole word after it. */
  function RemoveTags(s: string): (r: string)
    ensures |r| <= |s|
    ensures (forall i :: 0 <= i < |s| ==> !IsTagSign(s[i])) ==> r == s
    decreases |s|
  {
    if |s| == 0 then []
    else if TagAt(s) then RemoveTags(s[WordEnd(s, 1)..])
    else [s[0]] + RemoveTags(s[1..])
  }

  /** What RemoveTags leaves starts with a character that cannot continue a
      tag: the match it dropped ended at a non-word character. */
  lemma {:induction false} RemoveTagsHead(s: string)
    requires |RemoveTags(s)| > 0 && |s| > 0 && TagAt(s)
    ensures !IsWordChar(RemoveTags(s)[0])
    decreases |s|
  {
    var rest := s[WordEnd(s, 1)..];
    assert |rest| > 0 && !IsWordChar(rest[0]);
    if TagAt(rest) {
      RemoveTagsHead(rest);
    }
  }

  /** After RemoveTags, no hashtag or handle is left, so a second pass changes nothing. */
  lemma {:induction false} RemoveTagsClean(s: string)
    ensures NoTag(RemoveTags(s))
    decreases |s|
  {
    if |s| == 0 {
    } else if TagAt(s) {
      RemoveTagsClean(s[WordEnd(s, 1)..]);
    } else {
      var tail := RemoveTags(s[1..]);
      var r := [s[0]] + tail;
      RemoveTagsClean(s[1..]);
      forall i | 0 <= i < |r|
        ensures !TagAt(r[i..])
      {
        if i == 0 {
          if |tail| > 0 && IsTagSign(s[0]) {
            assert !IsWordChar(s[1]);
            TailStart(s[1..]);
          }
        } else {
          assert r[i..] == tail[i - 1..];
        }
      }
    }
  }

  /** RemoveTags never starts its result with a word character the input did not start with. */
  lemma {:induction false} TailStart(s: string)
    requires |s| > 0 && !IsWordChar(s[0]) && |RemoveTags(s)| > 0
    ensures !IsWordChar(RemoveTags(s)[0])
  {
    if TagAt(s) {
      RemoveTagsHead(s);
    }
  }

  /** Removing tags twice is removing them once. */
  lemma RemoveTagsIdempotent(s: string)
    ensures RemoveTags(RemoveTags(s)) == RemoveTags(s)
  {
    RemoveTagsClean(s);
    NoTagFixed(RemoveTags(s));
  }

  /** A string without tags is left as it is. */
  lemma {:induction false} NoTagFixed(s: string)
    requires NoTag(s)
    ensures RemoveTags(s) == s
    decreases |s|
  {
    if |s| > 0 {
      assert s[0..] == s;
      assert !TagAt(s);
      assert forall i :: 0 <= i < |s[1..]| ==> s[1..][i..] == s[i + 1..];
      NoTagFixed(s[1..]);
    }
  }

  // ---------------------------------------------------------------- links

  /** `(http(s)?://)\S+` matches at the start of `s`; the result is where the match ends. */
  function UrlAt(s: string): (e: nat)
    ensures e <= |s|
    ensures e > 0 ==> s[0] == 'h'
    ensures e > 0 ==> e == |s| || IsSpace(s[e])
  {
    if |s| > 7 && s[..7] == "http://" && !IsSpace(s[7]) then NonSpaceEnd(s, 7)
    else if |s| > 8 && s[..8] == "https://" && !IsSpace(s[8]) then NonSpaceEnd(s, 8)
    else 0
  }

  /** Drop every `http://` or `https://` link with everything up to the next whitespace. */
  function RemoveUrls(s: string): (r: string)
    ensures |r| <= |s|
    ensures (forall i :: 0 <= i < |s| ==> s[i] != 'h') ==> r == s
    decreases |s|
  {
    if |s| == 0 then []
    else if UrlAt(s) > 0 then RemoveUrls(s[UrlAt(s)..])
    else [s[0]] + RemoveUrls(s[1..])
  }

  /** No link is left anywhere in `s`. */
  predicate NoUrl(s: string) {
    forall i :: 0 <= i < |s| ==> UrlAt(s[i..]) == 0
  }

  /** A string without links is left as it is. */
  lemma {:induction false} NoUrlFixed(s: string)
    requires NoUrl(s)
    ensures RemoveUrls(s) == s
    decreases |s|
  {
    if |s| > 0 {
      assert s[0..] == s;
      assert forall i :: 0 <= i < |s[1..]| ==> s[1..][i..] == s[i + 1..];
      NoUrlFixed(s[1..]);
    }
  }

  /** A run of non-whitespace at the start of RemoveUrls' result was already
      there in the input: a dropped link is always followed by whitespace or
      the end of the text. */
  lemma {:induction false} UrlsPrefix(t: string, j: nat)
    ensures j <= |RemoveUrls(t)| && (forall k :: 0 <= k < j ==> !IsSpace(RemoveUrls(t)[k])) ==>
      j <= |t| && RemoveUrls(t)[..j] == t[..j]
    decreases |t|
  {
    if |t| > 0 && j > 0 {
      if UrlAt(t) > 0 {
        DroppedUrlSpace(t);
      } else {
        assert RemoveUrls(t) == [t[0]] + RemoveUrls(t[1..]);
        UrlsPrefix(t[1..], j - 1);
        ConsPrefix(t[0], RemoveUrls(t[1..]), t[1..], j);
        assert t == [t[0]] + t[1..];
      }
    }
  }

  /** Where a link was dropped, the result goes on with whitespace or ends. */
  lemma {:induction false} DroppedUrlSpace(t: string)
    requires UrlAt(t) > 0
    ensures |RemoveUrls(t)| == 0 || IsSpace(RemoveUrls(t)[0])
  {
    var rest := t[UrlAt(t)..];
    if |rest| > 0 {
      assert rest[0] != 'h';
      assert RemoveUrls(rest) == [rest[0]] + RemoveUrls(rest[1..]);
    }
  }

  /** Putting the same character in front of two strings carries a shared
      prefix of the non-space part over to the longer prefix. */
  lemma {:induction false} ConsPrefix(c: char, a: string, b: string, j: nat)
    requires 0 < j
    requires j - 1 <= |a| && (forall k :: 0 <= k < j - 1 ==> !IsSpace(a[k])) ==>
      j - 1 <= |b| && a[..j - 1] == b[..j - 1]
    ensures j <= |[c] + a| && (forall k :: 0 <= k < j ==> !IsSpace(([c] + a)[k])) ==>
      j <= |[c] + b| && ([c] + a)[..j] == ([c] + b)[..j]
  {
    var u, v := [c] + a, [c] + b;
    if j <= |u| && (forall k :: 0 <= k < j ==> !IsSpace(u[k])) {
      assert forall k :: 0 <= k < j - 1 ==> a[k] == u[k + 1];
      assert u[..j] == [c] + a[..j - 1];
      assert v[..j] == [c] + b[..j - 1];
    }
  }

  /** A scheme spelt by a kept character and the start of the rest was spelt
      by the input too, when the rest's first `|scheme|` characters are the
      input's own. */
  lemma {:induction false} SchemeShift(s: string, tail: string, scheme: string)
    requires |s| > 0 && forall k :: 0 <= k < |scheme| ==> !IsSpace(scheme[k])
    requires |scheme| <= |tail| && (forall k :: 0 <= k < |scheme| ==> !IsSpace(tail[k])) ==>
      |scheme| <= |s[1..]| && tail[..|scheme|] == s[1..][..|scheme|]
    ensures var r := [s[0]] + tail;
      |r| > |scheme| && r[..|scheme|] == scheme && !IsSpace(r[|scheme|]) ==>
      |s| > |scheme| && s[..|scheme|] == scheme && !IsSpace(s[|scheme|])
  {
    var r := [s[0]] + tail;
    var n := |scheme|;
    if |r| > n && r[..n] == scheme && !IsSpace(r[n]) {
      forall k | 0 <= k < n
        ensures !IsSpace(tail[k])
      {
        assert tail[k] == r[k + 1];
        if k + 1 < n {
          assert r[k + 1] == r[..n][k + 1];
        }
      }
      assert tail[..n] == s[1..][..n];
      forall k | 0 <= k <= n
        ensures s[k] == r[k]
      {
        if k > 0 {
          assert s[k] == s[1..][..n][k - 1] && r[k] == tail[..n][k - 1];
        }
      }
      assert s[..n] == r[..n];
    }
  }

  /** A link starts exactly where one of the two schemes is followed by a
      character other than whitespace. */
  lemma {:induction false} UrlAtSchemes(s: string)
    ensures UrlAt(s) > 0 <==>
      (|s| > 7 && s[..7] == "http://" && !IsSpace(s[7])) || (|s| > 8 && s[..8] == "https://" && !IsSpace(s[8]))
  {
  }

  /** A link scheme spelt by a character RemoveUrls keeps and what follows it
      in the result was spelt by the input at that character. */
  lemma {:induction false} SchemeKept(s: string, scheme: string)
    requires |s| > 0 && forall k :: 0 <= k < |scheme| ==> !IsSpace(scheme[k])
    ensures var r := [s[0]] + RemoveUrls(s[1..]);
      |r| > |scheme| && r[..|scheme|] == scheme && !IsSpace(r[|scheme|]) ==>
      |s| > |scheme| && s[..|scheme|] == scheme && !IsSpace(s[|scheme|])
  {
    UrlsPrefix(s[1..], |scheme|);
    SchemeShift(s, RemoveUrls(s[1..]), scheme);
  }

  /** A character RemoveUrls keeps cannot start a link with what follows it,
      unless it started one in the input. */
  lemma {:induction false} UrlKept(s: string)
    requires |s| > 0
    ensures UrlAt([s[0]] + RemoveUrls(s[1..])) > 0 ==> UrlAt(s) > 0
  {
    UrlAtSchemes(s);
    UrlAtSchemes([s[0]] + RemoveUrls(s[1..]));
    SchemeKept(s, "http://");
    SchemeKept(s, "https://");
  }

  /** After RemoveUrls, no link is left. */
  lemma {:induction false} RemoveUrlsClean(s: string)
    ensures NoUrl(RemoveUrls(s))
    decreases |s|
  {
    if |s| == 0 {
    } else if UrlAt(s) > 0 {
      RemoveUrlsClean(s[UrlAt(s)..]);
    } else {
      var tail := RemoveUrls(s[1..]);
      var r := [s[0]] + tail;
      RemoveUrlsClean(s[1..]);
      forall i | 0 <= i < |r|
        ensures UrlAt(r[i..]) == 0
      {
        if i == 0 {
          assert r[0..] == r;
          UrlKept(s);
        } else {
          assert r[i..] == tail[i - 1..];
        }
      }
    }
  }

  /** Removing links twice is removing them once. */
  lemma RemoveUrlsIdempotent(s: string)
    ensures RemoveUrls(RemoveUrls(s)) == RemoveUrls(s)
  {
    RemoveUrlsClean(s);
    NoUrlFixed(RemoveUrls(s));
  }

  // ---------------------------------------------------------------- picture links

  /** `pic.twitter.com/\S+` matches at the start of `s` (each unescaped `.`
      stands for any character but a newline); the result is where it ends. */
  function PicAt(s: string): (e: nat)
    ensures e <= |s|
    ensures e > 0 ==> s[0] == 'p'
    ensures e > 0 ==> e == |s| || IsSpace(s[e])
  {
    if |s| > 16 && s[..3] == "pic" && s[3] != '\n' && s[4..11] == "twitter" && s[11] != '\n'
       && s[12..16] == "com/" && !IsSpace(s[16])
    then NonSpaceEnd(s, 16)
    else 0
  }

  /** Drop every picture link with everything up to the next whitespace. */
  function RemovePic(s: string): (r: string)
    ensures |r| <= |s|
    ensures (forall i :: 0 <= i < |s| ==> s[i] != 'p') ==> r == s
    decreases |s|
  {
    if |s| == 0 then []
    else if PicAt(s) > 0 then RemovePic(s[PicAt(s)..])
    else [s[0]] + RemovePic(s[1..])
  }

  /** No picture link is left anywhere in `s`. */
  predicate NoPic(s: string) {
    forall i :: 0 <= i < |s| ==> PicAt(s[i..]) == 0
  }

  /** A string without picture links is left as it is. */
  lemma {:induction false} NoPicFixed(s: string)
    requires NoPic(s)
    ensures RemovePic(s) == s
    decreases |s|
  {
    if |s| > 0 {
      assert s[0..] == s;
      assert forall i :: 0 <= i < |s[1..]| ==> s[1..][i..] == s[i + 1..];
      NoPicFixed(s[1..]);
    }
  }




  /** The three substitutions in the order the source applies them. */
  function Sanitize(text: string): (r: string)
    ensures |r| <= |text|
  {
    RemovePic(RemoveUrls(RemoveTags(text)))
  }

  /** Text in which none of the three patterns matches passes through unchanged. */
  lemma SanitizePlain(text: string)
    requires NoTag(text) && NoUrl(text) && NoPic(text)
    ensures Sanitize(text) == text
  {
    NoTagFixed(text);
    NoUrlFixed(text);
    NoPicFixed(text);
  }
}
