/** The text helpers of `src/utils.py`: display names, media and link tests, emoji and
    link extraction. Character classes that Python takes from the Unicode database
    (`\w`, whitespace, lower case) and the `emoji` package's table are parameters. */
module TextUtils {
  import opened Seqs

  /** Character facts supplied by Python's Unicode tables and the `emoji` package. */
  datatype Unicode = Unicode(
    isWord: char -> bool,   // regex `\w`
    isSpace: char -> bool,  // regex `\s`, and what `str.strip()` removes
    isEmoji: char -> bool,  // membership in `emoji.EMOJI_DATA`
    lower: char -> char)    // `str.lower()`, one character at a time

  /** The tables agree with ASCII on ASCII: letters, digits and `_` are word characters,
      the printable characters are not whitespace, the space is, and `lower` maps
      `A`..`Z` to `a`..`z` and fixes every other ASCII character. */
  ghost predicate AsciiConsistent(u: Unicode)
  {
    && u.isSpace(' ')
    && (forall c: char :: '!' <= c <= '~' ==> !u.isSpace(c))
    && (forall c: char :: IsAsciiWord(c) ==> u.isWord(c))
    && (forall c: char :: c < 128 as char ==> u.lower(c) == AsciiLower(c))
  }

  predicate IsAsciiWord(c: char)
  {
    ('a' <= c <= 'z') || ('A' <= c <= 'Z') || ('0' <= c <= '9') || c == '_'
  }

  /** ASCII case folding: the only folding that matters for the patterns `http`,
      `www.` and the media keywords, which are all ASCII. */
  function AsciiLower(c: char): (r: char)
    ensures 'A' <= c <= 'Z' ==> 'a' <= r <= 'z'
    ensures !('A' <= c <= 'Z') ==> r == c
  {
    if 'A' <= c <= 'Z' then (c as int + 32) as char else c
  }

  /** The elements of `s` that satisfy `p`, in order (a list comprehension with a filter). */
  function Filter<T>(s: seq<T>, p: T -> bool): seq<T>
  {
    if s == [] then [] else Kept(s[0], p) + Filter(s[1..], p)
  }

  /** `[x]` when `x` satisfies `p`, else nothing. */
  function Kept<T>(x: T, p: T -> bool): seq<T>
  {
    if p(x) then [x] else []
  }

  /** `a` can be obtained from `b` by deleting elements. */
  predicate IsSubsequence<T(==)>(a: seq<T>, b: seq<T>)
    decreases |b|
  {
    a == [] || (b != [] && if a[0] == b[0] then IsSubsequence(a[1..], b[1..]) else IsSubsequence(a, b[1..]))
  }

  /** The filter keeps only elements satisfying `p`, each as often as in `s`, in their
      order in `s`. */
  lemma FilterProps<T>(s: seq<T>, p: T -> bool)
    ensures forall i :: 0 <= i < |Filter(s, p)| ==> p(Filter(s, p)[i])
    ensures forall x :: multiset(Filter(s, p))[x] == (if p(x) then multiset(s)[x] else 0)
    ensures IsSubsequence(Filter(s, p), s)
    ensures |Filter(s, p)| <= |s|
  {
    FilterSatisfies(s, p);
    FilterMultiset(s, p);
    FilterSubsequence(s, p);
  }

  lemma {:induction false} FilterSatisfies<T>(s: seq<T>, p: T -> bool)
    ensures forall i :: 0 <= i < |Filter(s, p)| ==> p(Filter(s, p)[i])
    ensures |Filter(s, p)| <= |s|
    decreases |s|
  {
    if s != [] {
      FilterSatisfies(s[1..], p);
      var h := Kept(s[0], p);
      var rest := Filter(s[1..], p);
      assert Filter(s, p) == h + rest;
      forall i | 0 <= i < |h + rest| ensures p((h + rest)[i]) {
        if i < |h| {
          assert (h + rest)[i] == s[0];
        } else {
          assert (h + rest)[i] == rest[i - |h|];
        }
      }
    }
  }

  lemma {:induction false} FilterMultiset<T>(s: seq<T>, p: T -> bool)
    ensures forall x :: multiset(Filter(s, p))[x] == (if p(x) then multiset(s)[x] else 0)
    decreases |s|
  {
    if s != [] {
      FilterMultiset(s[1..], p);
      assert s == [s[0]] + s[1..];
      assert multiset(s) == multiset{s[0]} + multiset(s[1..]);
      var h := Kept(s[0], p);
      assert multiset(Filter(s, p)) == multiset(h) + multiset(Filter(s[1..], p));
      assert multiset(h) == if p(s[0]) then multiset{s[0]} else multiset{};
    }
  }

  lemma {:induction false} FilterSubsequence<T>(s: seq<T>, p: T -> bool)
    ensures IsSubsequence(Filter(s, p), s)
    decreases |s|
  {
    if s != [] {
      FilterSubsequence(s[1..], p);
      var rest := Filter(s[1..], p);
      if p(s[0]) {
        var f := [s[0]] + rest;
        assert Filter(s, p) == f;
        assert f[0] == s[0] && f[1..] == rest;
      } else {
        assert Filter(s, p) == rest;
        SubsequenceSkip(rest, s);
      }
    }
  }

  lemma {:induction false} SubsequenceSkip<T>(a: seq<T>, b: seq<T>)
    requires b != [] && IsSubsequence(a, b[1..])
    ensures IsSubsequence(a, b)
    decreases |b|, 0
  {
    if a != [] && a[0] == b[0] {
      SubsequenceDrop(a, b[1..]);
    }
  }

  lemma {:induction false} SubsequenceDrop<T>(a: seq<T>, b: seq<T>)
    requires a != [] && IsSubsequence(a, b)
    ensures IsSubsequence(a[1..], b)
    decreases |b|, 1
  {
    if a[0] == b[0] {
      SubsequenceSkip(a[1..], b);
    } else {
      SubsequenceDrop(a, b[1..]);
      SubsequenceSkip(a[1..], b);
    }
  }

  // ---------------------------------------------------------------- strip

  function StripLeft(u: Unicode, s: string): string
  {
    if s != [] && u.isSpace(s[0]) then StripLeft(u, s[1..]) else s
  }

  function StripRight(u: Unicode, s: string): string
  {
    if s != [] && u.isSpace(s[|s| - 1]) then StripRight(u, s[..|s| - 1]) else s
  }

  /** `str.strip()`: removes leading and trailing whitespace. */
  function Strip(u: Unicode, s: string): string
  {
    StripRight(u, StripLeft(u, s))
  }

  lemma {:induction false} StripLeftProps(u: Unicode, s: string)
    ensures var r := StripLeft(u, s);
      && |r| <= |s| && r == s[|s| - |r|..]
      && (forall i :: 0 <= i < |s| - |r| ==> u.isSpace(s[i]))
      && (r != [] ==> !u.isSpace(r[0]))
  {
    if s != [] && u.isSpace(s[0]) {
      StripLeftProps(u, s[1..]);
      var r := StripLeft(u, s);
      forall i | 0 < i < |s| - |r| ensures u.isSpace(s[i]) {
        assert s[1..][i - 1] == s[i];
      }
    }
  }

  lemma {:induction false} StripRightProps(u: Unicode, s: string)
    ensures var r := StripRight(u, s);
      && |r| <= |s| && r == s[..|r|]
      && (forall i :: |r| <= i < |s| ==> u.isSpace(s[i]))
      && (r != [] ==> !u.isSpace(r[|r| - 1]))
  {
    if s != [] && u.isSpace(s[|s| - 1]) {
      StripRightProps(u, s[..|s| - 1]);
    }
  }

  /** `Strip` removes exactly the whitespace at both ends: the result is a slice of the
      input, everything cut off is whitespace, and the result neither starts nor ends
      with whitespace. */
  lemma StripProps(u: Unicode, s: string)
    ensures exists a, b :: (0 <= a <= b <= |s| && Strip(u, s) == s[a..b]
      && (forall i :: 0 <= i < a ==> u.isSpace(s[i]))
      && (forall i :: b <= i < |s| ==> u.isSpace(s[i])))
    ensures Strip(u, s) != [] ==>
      !u.isSpace(Strip(u, s)[0]) && !u.isSpace(Strip(u, s)[|Strip(u, s)| - 1])
  {
    var a, b := StripSlice(u, s);
  }

  /** The bounds of the slice `Strip` keeps. */
  lemma StripSlice(u: Unicode, s: string) returns (a: nat, b: nat)
    ensures a <= b <= |s| && Strip(u, s) == s[a..b]
    ensures forall i :: 0 <= i < a ==> u.isSpace(s[i])
    ensures forall i :: b <= i < |s| ==> u.isSpace(s[i])
    ensures Strip(u, s) != [] ==>
      !u.isSpace(Strip(u, s)[0]) && !u.isSpace(Strip(u, s)[|Strip(u, s)| - 1])
  {
    var l := StripLeft(u, s);
    StripLeftProps(u, s);
    StripRightProps(u, l);
    var r := Strip(u, s);
    a := |s| - |l|;
    b := a + |r|;
    assert r == s[a..b];
    forall i | b <= i < |s| ensures u.isSpace(s[i]) {
      assert s[i] == l[i - a];
    }
  }

  // ---------------------------------------------------------------- clean_name

  /** Characters kept by `re.sub(r'[^\w\s\-]', '', name)`. */
  predicate KeptChar(u: Unicode, c: char)
  {
    u.isWord(c) || u.isSpace(c) || c == '-'
  }

  /** `re.sub(r'[^\w\s\-]', '', name)`. */
  function RemoveSymbols(u: Unicode, name: string): string
  {
    Filter(name, c => KeptChar(u, c))
  }

  /** The cleaned part of a display name: only word characters, whitespace and `-`,
      with the outer whitespace stripped. */
  function Cleaned(u: Unicode, name: string): string
  {
    Strip(u, RemoveSymbols(u, name))
  }

  /** `clean_name(name, max_length)`. */
  function CleanName(u: Unicode, name: string, maxLength: int): (r: string)
    ensures r != []
  {
    var c := Cleaned(u, name);
    if |c| > maxLength then PyPrefix(c, maxLength) + ".."
    else if c == [] then "Unknown" else c
  }

  /** The width every caller of `clean_name` uses. */
  const DisplayWidth := 15

  /** A long cleaned name is cut to its first `maxLength` characters plus `..`; a short
      one is returned whole, and an empty one becomes `Unknown`. */
  lemma CleanNameCases(u: Unicode, name: string, maxLength: nat)
    ensures var c := Cleaned(u, name);
      && (|c| > maxLength ==> CleanName(u, name, maxLength) == c[..maxLength] + "..")
      && (|c| <= maxLength && c != [] ==> CleanName(u, name, maxLength) == c)
      && (c == [] ==> CleanName(u, name, maxLength) == "Unknown")
    ensures |CleanName(u, name, maxLength)| <= if maxLength + 2 < 7 then 7 else maxLength + 2
  {
  }

  lemma RemoveSymbolsProps(u: Unicode, name: string)
    ensures forall i :: 0 <= i < |RemoveSymbols(u, name)| ==> KeptChar(u, RemoveSymbols(u, name)[i])
    ensures IsSubsequence(RemoveSymbols(u, name), name)
  {
    FilterProps(name, c => KeptChar(u, c));
  }

  /** The cleaned part keeps only word characters, whitespace and `-`, keeps them in
      order, and has no whitespace at either end. */
  lemma CleanedProps(u: Unicode, name: string)
    ensures forall i :: 0 <= i < |Cleaned(u, name)| ==> KeptChar(u, Cleaned(u, name)[i])
    ensures IsSubsequence(Cleaned(u, name), name)
    ensures Cleaned(u, name) != [] ==>
      !u.isSpace(Cleaned(u, name)[0]) && !u.isSpace(Cleaned(u, name)[|Cleaned(u, name)| - 1])
  {
    var kept := RemoveSymbols(u, name);
    var c := Cleaned(u, name);
    assert c == Strip(u, kept);
    RemoveSymbolsProps(u, name);
    var a, b := StripSlice(u, kept);
    forall i | 0 <= i < |c| ensures KeptChar(u, c[i]) {
      assert c[i] == kept[a + i];
    }
    SliceSubsequence(kept, a, b);
    SubsequenceTrans(c, kept, name);
  }

  lemma {:induction false} SubsequenceRefl<T>(a: seq<T>)
    ensures IsSubsequence(a, a)
    decreases |a|
  {
    if a != [] { SubsequenceRefl(a[1..]); }
  }

  lemma {:induction false} SliceSubsequence<T>(s: seq<T>, a: nat, b: nat)
    requires a <= b <= |s|
    ensures IsSubsequence(s[a..b], s)
    decreases |s|
  {
    if s == [] {
    } else if a > 0 {
      var t := s[1..];
      assert |s[a..b]| == |t[a - 1..b - 1]|;
      assert forall k :: 0 <= k < b - a ==> s[a..b][k] == t[a - 1..b - 1][k];
      assert s[a..b] == t[a - 1..b - 1];
      SliceSubsequence(t, a - 1, b - 1);
      SubsequenceSkip(s[a..b], s);
    } else if b > 0 {
      var t := s[1..];
      assert forall k :: 0 <= k < b - 1 ==> s[a..b][1..][k] == t[0..b - 1][k];
      assert s[a..b][1..] == t[0..b - 1];
      SliceSubsequence(t, 0, b - 1);
    }
  }

  lemma {:induction false} SubsequenceTrans<T>(a: seq<T>, b: seq<T>, c: seq<T>)
    requires IsSubsequence(a, b) && IsSubsequence(b, c)
    ensures IsSubsequence(a, c)
    decreases |c|
  {
    if a == [] {
    } else if b[0] == c[0] {
      if a[0] == b[0] {
        SubsequenceTrans(a[1..], b[1..], c[1..]);
      } else {
        SubsequenceTrans(a, b[1..], c[1..]);
        SubsequenceSkip(a, c);
      }
    } else {
      SubsequenceTrans(a, b, c[1..]);
      SubsequenceSkip(a, c);
    }
  }

  // ---------------------------------------------------------------- joining

  /** `' '.join(parts)`. */
  function JoinSpace(parts: seq<string>): string
  {
    if parts == [] then ""
    else if |parts| == 1 then parts[0]
    else JoinSpace(parts[..|parts| - 1]) + " " + parts[|parts| - 1]
  }

  lemma {:induction false} JoinSpaceAppend(parts: seq<string>, x: string)
    requires parts != []
    ensures JoinSpace(parts + [x]) == JoinSpace(parts) + " " + x
  {
    assert (parts + [x])[..|parts + [x]| - 1] == parts;
  }

  // ---------------------------------------------------------------- substring tests

  /** `w` occurs in `s` starting at position `i`. */
  predicate OccursAt(s: string, w: string, i: int)
  {
    0 <= i && i + |w| <= |s| && s[i..i + |w|] == w
  }

  /** Python's `w in s` on strings. */
  predicate Contains(s: string, w: string)
  {
    exists i :: 0 <= i <= |s| - |w| && OccursAt(s, w, i)
  }

  function MapChars(s: string, f: char -> char): (r: string)
    ensures |r| == |s|
    ensures forall i :: 0 <= i < |s| ==> r[i] == f(s[i])
  {
    seq(|s|, i requires 0 <= i < |s| => f(s[i]))
  }

  /** The keywords that mark a media placeholder. */
  const MediaKeywords: seq<string> := ["omitted", "deleted", "<media"]

  /** `is_media_message`: the lower-cased text contains one of the keywords. */
  predicate IsMediaMessage(u: Unicode, message: string)
  {
    exists k :: 0 <= k < |MediaKeywords| && Contains(MapChars(message, u.lower), MediaKeywords[k])
  }

  /** `w` occurs at `i` when both sides are folded to lower case (ASCII). */
  predicate OccursAtIgnoreCase(s: string, w: string, i: int)
  {
    0 <= i && i + |w| <= |s| && forall k :: 0 <= k < |w| ==> AsciiLower(s[i + k]) == AsciiLower(w[k])
  }

  /** `has_link`: `re.search(r'http|www\.', message, re.IGNORECASE)` succeeds. */
  predicate HasLink(message: string)
  {
    exists i :: 0 <= i < |message| && (OccursAtIgnoreCase(message, "http", i) || OccursAtIgnoreCase(message, "www.", i))
  }

  /** `extract_emojis`: the characters of the text that are emoji, in order. */
  function ExtractEmojis(u: Unicode, text: string): string
  {
    Filter(text, u.isEmoji)
  }

  /** `extract_emojis` keeps exactly the emoji: every character it returns is an emoji,
      each emoji occurs as often as in the text, the order is the text's, so the
      result is no longer than the text. */
  lemma ExtractEmojisProps(u: Unicode, text: string)
    ensures forall i :: 0 <= i < |ExtractEmojis(u, text)| ==> u.isEmoji(ExtractEmojis(u, text)[i])
    ensures forall c :: multiset(ExtractEmojis(u, text))[c] == (if u.isEmoji(c) then multiset(text)[c] else 0)
    ensures IsSubsequence(ExtractEmojis(u, text), text)
    ensures |ExtractEmojis(u, text)| <= |text|
  {
    FilterProps(text, u.isEmoji);
  }

  // ---------------------------------------------------------------- extract_links

  /** The characters allowed after the scheme: `[^\s<>"{}|\\^`\[\]]`. */
  predicate UrlChar(u: Unicode, c: char)
  {
    !u.isSpace(c) && c !in "<>\"{}|\\^`[]"
  }

  /** The end of the run of URL characters that starts at `j`. */
  function UrlEnd(u: Unicode, s: string, j: nat): (e: nat)
    requires j <= |s|
    ensures j <= e <= |s|
    ensures forall k :: j <= k < e ==> UrlChar(u, s[k])
    ensures e < |s| ==> !UrlChar(u, s[e])
    decreases |s| - j
  {
    if j < |s| && UrlChar(u, s[j]) then UrlEnd(u, s, j + 1) else j
  }

  /** Where the URL characters start when `https?://` matches at `i`, or -1. */
  function SchemeEnd(s: string, i: nat): int
  {
    if OccursAt(s, "https://", i) then i + 8
    else if OccursAt(s, "http://", i) then i + 7
    else -1
  }

  /** `re.findall(r'https?://[^\s<>"{}|\\^`\[\]]+', s)` scanning from position `i`:
      leftmost matches, each as long as possible, none overlapping. */
  function LinksFrom(u: Unicode, s: string, i: nat): seq<string>
    requires i <= |s|
    decreases |s| - i
  {
    if i == |s| then []
    else
      var p := SchemeEnd(s, i);
      if 0 <= p < |s| && UrlChar(u, s[p]) then
        var e := UrlEnd(u, s, p);
        [s[i..e]] + LinksFrom(u, s, e)
      else LinksFrom(u, s, i + 1)
  }

  /** `extract_links`. */
  function ExtractLinks(u: Unicode, message: string): seq<string>
  {
    LinksFrom(u, message, 0)
  }

  /** A link as `extract_links` returns it. */
  predicate LinkShaped(u: Unicode, link: string)
  {
    && ((|link| > 8 && link[..8] == "https://") || (|link| > 7 && link[..7] == "http://"))
    && (forall k :: 0 <= k < |link| ==> !u.isSpace(link[k]))
  }

  /** The link found at `i` is shaped like a link and occurs at `i`. */
  lemma HeadLinkProps(u: Unicode, s: string, i: nat)
    requires i < |s| && AsciiConsistent(u)
    requires 0 <= SchemeEnd(s, i) < |s| && UrlChar(u, s[SchemeEnd(s, i)])
    ensures LinkShaped(u, s[i..UrlEnd(u, s, SchemeEnd(s, i))])
    ensures OccursAt(s, s[i..UrlEnd(u, s, SchemeEnd(s, i))], i)
  {
    var p := SchemeEnd(s, i);
    var e := UrlEnd(u, s, p);
    var link := s[i..e];
    forall k | 0 <= k < |link| ensures !u.isSpace(link[k]) {
      if k < p - i {
        assert link[k] == s[i..p][k];
        assert s[i..p] == "https://" || s[i..p] == "http://";
      } else {
        assert link[k] == s[i + k];
      }
    }
    if OccursAt(s, "https://", i) {
      assert link[..8] == s[i..i + 8];
    } else {
      assert link[..7] == s[i..i + 7];
    }
  }

  /** `w` occurs in `s` at or after position `i`. */
  ghost predicate OccursFrom(s: string, w: string, i: nat)
  {
    exists j :: i <= j && OccursAt(s, w, j)
  }

  lemma OccursFromWeaken(s: string, w: string, i: nat, k: nat)
    requires k <= i && OccursFrom(s, w, i)
    ensures OccursFrom(s, w, k)
  {
    var j :| i <= j && OccursAt(s, w, j);
    assert k <= j;
  }

  lemma {:induction false} LinksFromProps(u: Unicode, s: string, i: nat)
    requires i <= |s| && AsciiConsistent(u)
    ensures forall n :: 0 <= n < |LinksFrom(u, s, i)| ==>
      LinkShaped(u, LinksFrom(u, s, i)[n]) && OccursFrom(s, LinksFrom(u, s, i)[n], i)
    decreases |s| - i
  {
    if i < |s| {
      var p := SchemeEnd(s, i);
      var links := LinksFrom(u, s, i);
      if 0 <= p < |s| && UrlChar(u, s[p]) {
        var e := UrlEnd(u, s, p);
        LinksFromProps(u, s, e);
        HeadLinkProps(u, s, i);
        var rest := LinksFrom(u, s, e);
        assert links == [s[i..e]] + rest;
        forall n | 0 <= n < |links| ensures LinkShaped(u, links[n]) && OccursFrom(s, links[n], i) {
          if n == 0 {
            assert links[0] == s[i..e];
          } else {
            assert links[n] == rest[n - 1];
            OccursFromWeaken(s, rest[n - 1], e, i);
          }
        }
      } else {
        LinksFromProps(u, s, i + 1);
        assert links == LinksFrom(u, s, i + 1);
        forall n | 0 <= n < |links| ensures LinkShaped(u, links[n]) && OccursFrom(s, links[n], i) {
          OccursFromWeaken(s, links[n], i + 1, i);
        }
      }
    }
  }

  /** Every link `extract_links` returns starts with `http://` or `https://`, carries at
      least one character after the scheme, contains no whitespace and occurs in the
      message. */
  lemma ExtractLinksProps(u: Unicode, message: string)
    requires AsciiConsistent(u)
    ensures forall n :: 0 <= n < |ExtractLinks(u, message)| ==>
      LinkShaped(u, ExtractLinks(u, message)[n]) && Contains(message, ExtractLinks(u, message)[n])
  {
    var links := ExtractLinks(u, message);
    LinksFromProps(u, message, 0);
    forall n | 0 <= n < |links| ensures Contains(message, links[n]) {
      var j :| 0 <= j && OccursAt(message, links[n], j);
      assert 0 <= j <= |message| - |links[n]|;
    }
  }

  /** A message from which `extract_links` takes a link passes `has_link`: every link
      begins with `http`. */
  lemma LinksImplyHasLink(u: Unicode, message: string)
    requires AsciiConsistent(u) && ExtractLinks(u, message) != []
    ensures HasLink(message)
  {
    var link := ExtractLinks(u, message)[0];
    ExtractLinksProps(u, message);
    assert LinkShaped(u, link) && Contains(message, link);
    assert link[..4] == "http" by {
      if |link| > 8 && link[..8] == "https://" {
        assert link[..4] == link[..8][..4];
      } else {
        assert link[..4] == link[..7][..4];
      }
    }
    var i :| 0 <= i <= |message| - |link| && OccursAt(message, link, i);
    forall k | 0 <= k < 4 ensures AsciiLower(message[i + k]) == AsciiLower("http"[k]) {
      assert message[i + k] == message[i..i + |link|][k] == link[k] == link[..4][k];
    }
    assert OccursAtIgnoreCase(message, "http", i);
    assert 0 <= i < |message|;
  }

  /** `is_media_message` ignores case: a keyword written in any mix of ASCII capitals
      marks a media message. */
  lemma MediaIgnoresCase(u: Unicode, message: string, k: nat, i: nat)
    requires AsciiConsistent(u) && k < |MediaKeywords|
    requires OccursAtIgnoreCase(message, MediaKeywords[k], i)
    ensures IsMediaMessage(u, message)
  {
    var w := MediaKeywords[k];
    var lowered := MapChars(message, u.lower);
    forall j | 0 <= j < |w| ensures lowered[i + j] == w[j] {
      var c := message[i + j];
      assert AsciiLower(c) == AsciiLower(w[j]) == w[j];
      assert c < 128 as char;
    }
    assert lowered[i..i + |w|] == w;
    assert OccursAt(lowered, w, i);
  }

  /** The placeholder WhatsApp writes for a photo left out of the export. */
  lemma MediaPlaceholder(u: Unicode)
    requires AsciiConsistent(u)
    ensures IsMediaMessage(u, "<Media omitted>")
    ensures !IsMediaMessage(u, "see you")
  {
    MediaIgnoresCase(u, "<Media omitted>", 0, 7);
    var s := MapChars("see you", u.lower);
    assert s[0] == 's' && s[1] == 'e';
    forall k | 0 <= k < |MediaKeywords| ensures !Contains(s, MediaKeywords[k]) {
      var w := MediaKeywords[k];
      forall j | 0 <= j <= |s| - |w| ensures !OccursAt(s, w, j) {
        assert j <= 1;
        assert s[j..j + |w|][0] == s[j] != w[0];
      }
    }
  }
}
