/** The Python `str` operations the crawler's parsing code is built from,
    written out over `seq<char>`: `split`, `join`, `strip`, `replace`,
    `rpartition` and the decimal formatting of integers. */
module Text {

  // ------------------------------------------------------------------ search

  /** `pat in s`: the pattern starts at some position of `s`. */
  predicate Occurs(pat: string, s: string)
    decreases |s|
  {
    pat <= s || (|s| > 0 && Occurs(pat, s[1..]))
  }

  /** For a one-character pattern, occurrence is plain membership. */
  lemma {:induction false} OccursChar(c: char, s: string)
    ensures Occurs([c], s) <==> c in s
    decreases |s|
  {
    if |s| > 0 {
      OccursChar(c, s[1..]);
      assert s == [s[0]] + s[1..];
    }
  }

  // ------------------------------------------------------------- split, join

  /** `sep.join(parts)`. */
  function Join(parts: seq<string>, sep: string): string
  {
    if |parts| == 0 then ""
    else if |parts| == 1 then parts[0]
    else parts[0] + sep + Join(parts[1..], sep)
  }

  /** `s.split(sep)` for a non-empty separator: scanning from the left, each
      non-overlapping occurrence of `sep` ends one part and starts the next. */
  function Split(s: string, sep: string): (parts: seq<string>)
    requires |sep| > 0
    ensures |parts| >= 1
    decreases |s|
  {
    if sep <= s then [""] + Split(s[|sep|..], sep)
    else if |s| == 0 then [""]
    else
      var rest := Split(s[1..], sep);
      [[s[0]] + rest[0]] + rest[1..]
  }

  /** `parts[-1]` */
  function Last(parts: seq<string>): string
    requires |parts| > 0
  {
    parts[|parts| - 1]
  }

  lemma JoinConsChar(c: char, parts: seq<string>, sep: string)
    requires |parts| >= 1
    ensures Join([[c] + parts[0]] + parts[1..], sep) == [c] + Join(parts, sep)
  {
    var p := [[c] + parts[0]] + parts[1..];
    if |parts| > 1 {
      assert p[1..] == parts[1..];
    }
  }

  lemma {:induction false} JoinSnoc(parts: seq<string>, p: string, sep: string)
    requires |parts| >= 1
    ensures Join(parts + [p], sep) == Join(parts, sep) + sep + p
    decreases |parts|
  {
    if |parts| == 1 {
      assert (parts + [p])[1..] == [p];
    } else {
      assert (parts + [p])[1..] == parts[1..] + [p];
      JoinSnoc(parts[1..], p, sep);
    }
  }

  lemma JoinCons(p: string, parts: seq<string>, sep: string)
    requires |parts| >= 1
    ensures Join([p] + parts, sep) == p + sep + Join(parts, sep)
  {
    assert ([p] + parts)[1..] == parts;
  }

  lemma JoinStartsWithHead(parts: seq<string>, sep: string)
    requires |parts| >= 1
    ensures parts[0] <= Join(parts, sep)
  {
  }

  /** Splitting and joining back with the same separator gives the string back. */
  lemma {:induction false} SplitJoin(s: string, sep: string)
    requires |sep| > 0
    ensures Join(Split(s, sep), sep) == s
    decreases |s|
  {
    if sep <= s {
      var tail := s[|sep|..];
      var rest := Split(tail, sep);
      assert Split(s, sep) == [""] + rest;
      assert Join(rest, sep) == tail by { SplitJoin(tail, sep); }
      JoinCons("", rest, sep);
      assert s == "" + sep + tail;
    } else if |s| > 0 {
      var tail := s[1..];
      var rest := Split(tail, sep);
      assert Split(s, sep) == [[s[0]] + rest[0]] + rest[1..];
      assert Join(rest, sep) == tail by { SplitJoin(tail, sep); }
      JoinConsChar(s[0], rest, sep);
      assert s == [s[0]] + tail;
    }
  }

  /** No part of a split holds the separator. */
  lemma {:induction false} SplitPartsFree(s: string, sep: string)
    requires |sep| > 0
    ensures forall i :: 0 <= i < |Split(s, sep)| ==> !Occurs(sep, Split(s, sep)[i])
    decreases |s|
  {
    if sep <= s {
      SplitPartsFree(s[|sep|..], sep);
      assert Split(s, sep) == [""] + Split(s[|sep|..], sep);
    } else if |s| > 0 {
      SplitPartsFree(s[1..], sep);
      var rest := Split(s[1..], sep);
      var parts := Split(s, sep);
      assert parts == [[s[0]] + rest[0]] + rest[1..];
      SplitJoin(s, sep);
      JoinStartsWithHead(parts, sep);
      assert parts[0][1..] == rest[0];
      assert !Occurs(sep, parts[0]);
      forall i | 1 <= i < |parts|
        ensures !Occurs(sep, parts[i])
      {
        assert parts[i] == rest[i];
      }
    }
  }

  /** Every character of every part comes from the split string. */
  lemma {:induction false} SplitPartsWithin(s: string, sep: string)
    requires |sep| > 0
    ensures forall i, ch :: 0 <= i < |Split(s, sep)| && ch in Split(s, sep)[i] ==> ch in s
    decreases |s|
  {
    var parts := Split(s, sep);
    if sep <= s {
      SplitPartsWithin(s[|sep|..], sep);
      assert parts == [""] + Split(s[|sep|..], sep);
      forall i, ch | 1 <= i < |parts| && ch in parts[i]
        ensures ch in s
      {
        assert parts[i] == Split(s[|sep|..], sep)[i - 1];
        assert ch in s[|sep|..];
      }
    } else if |s| > 0 {
      SplitPartsWithin(s[1..], sep);
      var rest := Split(s[1..], sep);
      assert parts == [[s[0]] + rest[0]] + rest[1..];
      forall i, ch | 0 <= i < |parts| && ch in parts[i]
        ensures ch in s
      {
        if i == 0 {
          if ch != s[0] {
            assert ch in rest[0];
            assert ch in s[1..];
          }
        } else {
          assert parts[i] == rest[i];
          assert ch in s[1..];
        }
      }
    }
  }

  /** Splitting on one character gives one part more than the character's count. */
  lemma {:induction false} SplitCharCount(s: string, c: char)
    ensures |Split(s, [c])| == multiset(s)[c] + 1
    decreases |s|
  {
    if |s| > 0 {
      SplitCharCount(s[1..], c);
      assert s == [s[0]] + s[1..];
      assert [c] <= s <==> s[0] == c;
    }
  }

  /** A string without the separator is its own single part. */
  lemma {:induction false} SplitAbsent(s: string, sep: string)
    requires |sep| > 0 && !Occurs(sep, s)
    ensures Split(s, sep) == [s]
    decreases |s|
  {
    if |s| > 0 {
      SplitAbsent(s[1..], sep);
      assert [s[0]] + s[1..] == s;
    }
  }

  /** The first part of a split ends at the first occurrence of the separator,
      even when an occurrence would overlap the one that follows. */
  lemma {:induction false} SplitAtFirst(a: string, b: string, sep: string)
    requires |sep| > 0 && !Occurs(sep, a + sep[..|sep| - 1])
    ensures Split(a + sep + b, sep) == [a] + Split(b, sep)
    decreases |a|
  {
    var s := a + sep + b;
    if |a| == 0 {
      assert s == sep + b && s[|sep|..] == b;
    } else {
      var x := a + sep[..|sep| - 1];
      assert !(sep <= s) by {
        assert s[..|sep|] == x[..|sep|];
        assert !(sep <= x);
      }
      assert !Occurs(sep, a[1..] + sep[..|sep| - 1]) by {
        assert x[1..] == a[1..] + sep[..|sep| - 1];
      }
      var rest := Split(s[1..], sep);
      assert rest == [a[1..]] + Split(b, sep) by {
        assert s[1..] == a[1..] + sep + b;
        SplitAtFirst(a[1..], b, sep);
      }
      assert Split(s, sep) == [[s[0]] + rest[0]] + rest[1..];
      assert [s[0]] + rest[0] == a;
    }
  }

  // ------------------------------------------------------------------- strip

  /** The characters for which Python's `str.isspace()` holds: what `strip()`
      with no argument removes. */
  const Whitespace: set<char> := {
    ' ', '\t', '\n', '\r', '\U{B}', '\U{C}', '\U{1C}', '\U{1D}', '\U{1E}', '\U{1F}',
    '\U{85}', '\U{A0}', '\U{1680}', '\U{2000}', '\U{2001}', '\U{2002}', '\U{2003}',
    '\U{2004}', '\U{2005}', '\U{2006}', '\U{2007}', '\U{2008}', '\U{2009}', '\U{200A}',
    '\U{2028}', '\U{2029}', '\U{202F}', '\U{205F}', '\U{3000}'
  }

  /** `s.lstrip(chars)` */
  function TrimStart(s: string, chars: set<char>): (r: string)
    ensures |r| <= |s| && r == s[|s| - |r|..]
    ensures forall k :: 0 <= k < |s| - |r| ==> s[k] in chars
    ensures r == [] || r[0] !in chars
    decreases |s|
  {
    if |s| > 0 && s[0] in chars then
      var r := TrimStart(s[1..], chars);
      SuffixOfTail(s, s[1..], r, chars);
      r
    else s
  }

  /** A suffix of `s[1..]` preceded only by characters of `chars` is a
      suffix of `s` preceded only by such characters, when `s[0]` is one. */
  lemma SuffixOfTail(s: string, tail: string, r: string, chars: set<char>)
    requires |s| > 0 && s[0] in chars && tail == s[1..]
    requires |r| <= |tail| && r == tail[|tail| - |r|..]
    requires forall k :: 0 <= k < |tail| - |r| ==> tail[k] in chars
    ensures r == s[|s| - |r|..]
    ensures forall k :: 0 <= k < |s| - |r| ==> s[k] in chars
  {
    forall k | 1 <= k < |s| - |r|
      ensures s[k] in chars
    {
      assert s[k] == tail[k - 1];
    }
  }

  /** `s.rstrip(chars)` */
  function TrimEnd(s: string, chars: set<char>): (r: string)
    ensures r <= s
    ensures forall k :: |r| <= k < |s| ==> s[k] in chars
    ensures r == [] || r[|r| - 1] !in chars
    decreases |s|
  {
    if |s| > 0 && s[|s| - 1] in chars then
      var r := TrimEnd(s[..|s| - 1], chars);
      PrefixOfInit(s, s[..|s| - 1], r, chars);
      r
    else s
  }

  /** A prefix of `s[..|s| - 1]` followed only by characters of `chars` is
      a prefix of `s` followed only by such characters, when the last
      character of `s` is one. */
  lemma PrefixOfInit(s: string, init: string, r: string, chars: set<char>)
    requires |s| > 0 && s[|s| - 1] in chars && init == s[..|s| - 1]
    requires r <= init
    requires forall k :: |r| <= k < |init| ==> init[k] in chars
    ensures r <= s
    ensures forall k :: |r| <= k < |s| ==> s[k] in chars
  {
    forall k | |r| <= k < |init|
      ensures s[k] in chars
    {
      assert s[k] == init[k];
    }
  }

  /** Neither end of `s` is one of `chars`. */
  predicate Trimmed(s: string, chars: set<char>)
  {
    s == [] || (s[0] !in chars && s[|s| - 1] !in chars)
  }

  /** `s.strip(chars)`: what is left of `s` once the characters of `chars`
      are removed from both ends. */
  function Strip(s: string, chars: set<char>): (r: string)
    ensures Trimmed(r, chars)
    ensures StripOffset(s, chars) + |r| <= |s|
    ensures r == s[StripOffset(s, chars)..StripOffset(s, chars) + |r|]
    ensures forall k :: 0 <= k < StripOffset(s, chars) ==> s[k] in chars
    ensures forall k :: StripOffset(s, chars) + |r| <= k < |s| ==> s[k] in chars
  {
    var front := TrimStart(s, chars);
    var r := TrimEnd(front, chars);
    PrefixOfSuffix(s, front, r, chars);
    r
  }

  /** A prefix `r` of a suffix `front` of `s` is a slice of `s`; the
      characters of `s` outside it are those outside `front` and those of
      `front` after `r`. */
  lemma PrefixOfSuffix(s: string, front: string, r: string, chars: set<char>)
    requires |front| <= |s| && front == s[|s| - |front|..] && r <= front
    requires front == [] || front[0] !in chars
    requires forall k :: |r| <= k < |front| ==> front[k] in chars
    ensures |s| - |front| + |r| <= |s| && r == s[|s| - |front|..|s| - |front| + |r|]
    ensures r == [] || r[0] !in chars
    ensures forall k :: |s| - |front| + |r| <= k < |s| ==> s[k] in chars
  {
    forall k | |s| - |front| + |r| <= k < |s|
      ensures s[k] in chars
    {
      assert s[k] == front[k - (|s| - |front|)];
    }
  }

  /** How many characters `Strip` removes from the front of `s`. */
  function StripOffset(s: string, chars: set<char>): (n: nat)
    ensures n <= |s|
  {
    |s| - |TrimStart(s, chars)|
  }

  /** Stripping `c` from a text framed by one `c` on each side, whose own
      ends are not `c`, gives the text. */
  lemma StripFrame(body: string, c: char)
    requires body != [] && body[0] != c && body[|body| - 1] != c
    ensures Strip([c] + body + [c], {c}) == body
  {
    var s := [c] + body + [c];
    assert s[1..] == body + [c];
    assert TrimStart(s, {c}) == body + [c];
    assert (body + [c])[..|body|] == body;
    assert TrimEnd(body + [c], {c}) == body;
  }

  /** Stripping a string whose ends are already clean leaves it alone. */
  lemma StripTrimmed(s: string, chars: set<char>)
    requires Trimmed(s, chars)
    ensures Strip(s, chars) == s
  {
  }

  // ----------------------------------------------------------------- replace

  /** `s.replace(pat, rep)`: scanning from the left, each non-overlapping
      occurrence of `pat` is replaced by `rep`. */
  function Replace(s: string, pat: string, rep: string): string
    requires |pat| > 0
    decreases |s|
  {
    if pat <= s then rep + Replace(s[|pat|..], pat, rep)
    else if |s| == 0 then ""
    else [s[0]] + Replace(s[1..], pat, rep)
  }

  /** Replacing a pattern that does not occur changes nothing. */
  lemma {:induction false} ReplaceAbsent(s: string, pat: string, rep: string)
    requires |pat| > 0 && !Occurs(pat, s)
    ensures Replace(s, pat, rep) == s
    decreases |s|
  {
    if |s| > 0 {
      ReplaceAbsent(s[1..], pat, rep);
      assert [s[0]] + s[1..] == s;
    }
  }

  /** `s.replace(': ', '. ')` keeps the length and only turns colons into dots. */
  lemma {:induction false} ColonSpaceReplaced(s: string)
    ensures |Replace(s, ": ", ". ")| == |s|
    ensures forall k :: 0 <= k < |s| ==>
      Replace(s, ": ", ". ")[k] == s[k] || (s[k] == ':' && Replace(s, ": ", ". ")[k] == '.')
    decreases |s|
  {
    var r := Replace(s, ": ", ". ");
    if ": " <= s {
      ColonSpaceReplaced(s[2..]);
      var r' := Replace(s[2..], ": ", ". ");
      assert r == ". " + r';
      assert s[0] == ':' && s[1] == ' ';
      forall k | 2 <= k < |s|
        ensures r[k] == s[k] || (s[k] == ':' && r[k] == '.')
      {
        assert r[k] == r'[k - 2] && s[k] == s[2..][k - 2];
      }
    } else if |s| > 0 {
      ColonSpaceReplaced(s[1..]);
      var r' := Replace(s[1..], ": ", ". ");
      assert r == [s[0]] + r';
      forall k | 1 <= k < |s|
        ensures r[k] == s[k] || (s[k] == ':' && r[k] == '.')
      {
        assert r[k] == r'[k - 1] && s[k] == s[1..][k - 1];
      }
    }
  }

  /** After `s.replace(': ', '. ')` no `": "` is left, not even one formed
      across a replacement. */
  lemma {:induction false} ColonSpaceGone(s: string)
    ensures !Occurs(": ", Replace(s, ": ", ". "))
    decreases |s|
  {
    var r := Replace(s, ": ", ". ");
    if ": " <= s {
      ColonSpaceGone(s[2..]);
      var r' := Replace(s[2..], ": ", ". ");
      assert r == ['.'] + ([' '] + r');
      NotOccursCons(": ", ' ', r');
      NotOccursCons(": ", '.', [' '] + r');
    } else if |s| > 0 {
      ColonSpaceGone(s[1..]);
      var r' := Replace(s[1..], ": ", ". ");
      assert r == [s[0]] + r';
      if s[0] == ':' && |s| >= 2 {
        ColonSpaceReplaced(s[1..]);
        assert s[1..][0] == s[1] != ' ';
        assert r'[0] != ' ';
      }
      NotOccursCons(": ", s[0], r');
    }
  }

  /** A pattern that neither starts at the first character of `[c] + t` nor
      occurs in `t` does not occur in `[c] + t`. */
  lemma NotOccursCons(pat: string, c: char, t: string)
    requires !Occurs(pat, t) && pat != [] && (pat[0] != c || !(pat <= [c] + t))
    ensures !Occurs(pat, [c] + t)
  {
    assert ([c] + t)[0] == c;
    assert ([c] + t)[1..] == t;
  }

  /** `s.replace(': ', '. ')` leaves a whitespace-trimmed string trimmed. */
  lemma ColonSpaceKeepsTrimmed(s: string)
    requires Trimmed(s, Whitespace)
    ensures Trimmed(Replace(s, ": ", ". "), Whitespace)
  {
    ColonSpaceReplaced(s);
    var r := Replace(s, ": ", ". ");
    if |s| > 0 {
      assert r[0] == s[0] || r[0] == '.';
      assert r[|r| - 1] == s[|s| - 1] || r[|r| - 1] == '.';
    }
  }

  // -------------------------------------------------------------- rpartition

  /** `s.rpartition(c)`: the text before the last `c`, the separator itself,
      and the text after it; `('', '', s)` when `c` does not occur. */
  function RPartition(s: string, c: char): (r: (string, string, string))
    ensures r.0 + r.1 + r.2 == s
    ensures c !in r.2
    ensures r.1 == (if c in s then [c] else [])
    ensures c !in s ==> r.0 == []
    decreases |s|
  {
    if |s| == 0 then ([], [], [])
    else if s[|s| - 1] == c then (s[..|s| - 1], [c], [])
    else
      var p := RPartition(s[..|s| - 1], c);
      assert s == s[..|s| - 1] + [s[|s| - 1]];
      if p.1 == [] then ([], [], s) else (p.0, p.1, p.2 + [s[|s| - 1]])
  }

  /** The text after the last separator is determined by the string alone. */
  lemma LastSeparatorUnique(h1: string, t1: string, h2: string, t2: string, c: char)
    requires h1 + [c] + t1 == h2 + [c] + t2
    requires c !in t1 && c !in t2
    ensures h1 == h2 && t1 == t2
  {
    var s := h1 + [c] + t1;
    assert forall p :: |s| - |t1| <= p < |s| ==> s[p] == t1[p - (|s| - |t1|)];
    assert forall p :: |s| - |t2| <= p < |s| ==> s[p] == t2[p - (|s| - |t2|)];
    assert s[|s| - |t1| - 1] == c && s[|s| - |t2| - 1] == c;
    assert |t1| == |t2|;
    assert t1 == s[|s| - |t1|..] && t2 == s[|s| - |t2|..];
    assert h1 == s[..|h1|] && h2 == s[..|h2|];
  }

  /** Joining parts that do not contain `c` with `c` and splitting the result
      on `c` gives the parts back. */
  lemma {:induction false} JoinSplitChar(parts: seq<string>, c: char)
    requires |parts| >= 1
    requires forall i :: 0 <= i < |parts| ==> c !in parts[i]
    ensures Split(Join(parts, [c]), [c]) == parts
    decreases |parts|
  {
    OccursChar(c, parts[0]);
    if |parts| == 1 {
      SplitAbsent(parts[0], [c]);
    } else {
      JoinSplitChar(parts[1..], c);
      assert [c][..0] == [];
      assert parts[0] + [c][..0] == parts[0];
      SplitAtFirst(parts[0], Join(parts[1..], [c]), [c]);
      assert [parts[0]] + parts[1..] == parts;
    }
  }

  /** A character in neither the parts nor the separator is not in their join. */
  lemma {:induction false} JoinAvoids(parts: seq<string>, sep: string, c: char)
    requires c !in sep
    requires forall i :: 0 <= i < |parts| ==> c !in parts[i]
    ensures c !in Join(parts, sep)
    decreases |parts|
  {
    if |parts| > 1 {
      JoinAvoids(parts[1..], sep, c);
      assert forall i :: 1 <= i < |parts| ==> parts[1..][i - 1] == parts[i];
    }
  }

  /** Splitting on a character that occurs once gives the texts on either side. */
  lemma SplitAroundOnly(a: string, c: char, b: string)
    requires c !in a && c !in b
    ensures Split(a + [c] + b, [c]) == [a, b]
    ensures multiset(a + [c] + b)[c] == 1
  {
    OccursChar(c, a);
    OccursChar(c, b);
    assert [c][..0] == [] && a + [c][..0] == a;
    SplitAtFirst(a, b, [c]);
    SplitAbsent(b, [c]);
    SplitCharCount(a + [c] + b, c);
  }

  /** The last part of `s.split(c)` is the text after the last `c`: what
      `s.rpartition(c)[-1]` gives. */
  lemma SplitLastAfterLastSep(s: string, c: char)
    ensures Last(Split(s, [c])) == RPartition(s, c).2
  {
    var parts := Split(s, [c]);
    assert c !in Last(parts) by {
      SplitPartsFree(s, [c]);
      assert !Occurs([c], parts[|parts| - 1]);
      OccursChar(c, Last(parts));
    }
    if |parts| == 1 {
      SplitLastWhole(s, c);
    } else {
      SplitLastAfterSep(s, c);
    }
  }

  lemma SplitLastWhole(s: string, c: char)
    requires |Split(s, [c])| == 1
    ensures Last(Split(s, [c])) == RPartition(s, c).2
  {
    SplitJoin(s, [c]);
    SplitCharCount(s, c);
    assert c !in multiset(s);
  }

  lemma SplitLastAfterSep(s: string, c: char)
    requires |Split(s, [c])| > 1
    requires c !in Last(Split(s, [c]))
    ensures Last(Split(s, [c])) == RPartition(s, c).2
  {
    SplitJoin(s, [c]);
    RPartitionOfJoin(Split(s, [c]), c);
  }

  /** Partitioning a join around its last separator gives back the last part
      and the join of the others. */
  lemma RPartitionOfJoin(parts: seq<string>, c: char)
    requires |parts| > 1 && c !in parts[|parts| - 1]
    ensures RPartition(Join(parts, [c]), c)
              == (Join(parts[..|parts| - 1], [c]), [c], parts[|parts| - 1])
  {
    var init, last := parts[..|parts| - 1], parts[|parts| - 1];
    assert parts == init + [last];
    JoinSnoc(init, last, [c]);
    var s := Join(parts, [c]);
    assert s == Join(init, [c]) + [c] + last;
    assert s[|Join(init, [c])|] == c;
    var p := RPartition(s, c);
    LastSeparatorUnique(Join(init, [c]), last, p.0, p.2, c);
  }

  /** The first part of `s.split(c)` is the text before the first `c`. */
  lemma SplitFirstBeforeFirstSep(s: string, c: char)
    ensures c !in Split(s, [c])[0]
    ensures Split(s, [c])[0] <= s
    ensures |Split(s, [c])[0]| < |s| ==> s[|Split(s, [c])[0]|] == c
  {
    var parts := Split(s, [c]);
    SplitJoin(s, [c]);
    SplitPartsFree(s, [c]);
    OccursChar(c, parts[0]);
    if |parts| > 1 {
      assert s == parts[0] + [c] + Join(parts[1..], [c]);
    }
  }

  /** With exactly one `c`, `s.split(c)` has two parts, the texts either side of it. */
  lemma SplitOnce(s: string, c: char)
    requires multiset(s)[c] == 1
    ensures Split(s, [c]) == [RPartition(s, c).0, RPartition(s, c).2]
  {
    var parts := Split(s, [c]);
    SplitCharParts(s, c);
    TwoPartsAroundChar(s, c, parts);
    assert parts == [parts[0], parts[1]];
  }

  /** `s.split(c)` has one part more than `c` occurs, no part holds `c`, and
      joining gives `s` back. */
  lemma SplitCharParts(s: string, c: char)
    ensures |Split(s, [c])| == multiset(s)[c] + 1
    ensures forall i :: 0 <= i < |Split(s, [c])| ==> c !in Split(s, [c])[i]
    ensures Join(Split(s, [c]), [c]) == s
  {
    var parts := Split(s, [c]);
    SplitCharCount(s, c);
    SplitJoin(s, [c]);
    forall i | 0 <= i < |parts|
      ensures c !in parts[i]
    {
      SplitPartsFree(s, [c]);
      OccursChar(c, parts[i]);
    }
  }

  /** A text joined from two parts around `c`, the second without `c`, is
      partitioned back into them. */
  lemma TwoPartsAroundChar(s: string, c: char, parts: seq<string>)
    requires |parts| == 2 && Join(parts, [c]) == s && c !in parts[1]
    ensures RPartition(s, c) == (parts[0], [c], parts[1])
  {
    RPartitionOfJoin(parts, c);
    assert parts[..1] == [parts[0]];
  }

  // ------------------------------------------------------------------ digits

  predicate IsDigit(ch: char)
  {
    '0' <= ch <= '9'
  }

  function DigitChar(d: nat): (ch: char)
    requires d < 10
    ensures IsDigit(ch) && ch as int - '0' as int == d
  {
    ('0' as int + d) as char
  }

  /** `str(n)` for a non-negative integer: its decimal digits, without a
      leading zero. */
  function NatText(n: nat): (s: string)
    ensures |s| >= 1 && forall k :: 0 <= k < |s| ==> IsDigit(s[k])
    ensures s[0] == '0' ==> n == 0
    decreases n
  {
    if n < 10 then [DigitChar(n)] else NatText(n / 10) + [DigitChar(n % 10)]
  }

  /** `f'{n}'` for any integer: an optional minus sign, then the digits. */
  function IntText(n: int): (s: string)
    ensures |s| >= 1 && IsDigit(s[|s| - 1])
    ensures forall k :: 0 <= k < |s| ==> IsDigit(s[k]) || (k == 0 && s[k] == '-')
  {
    if n < 0 then "-" + NatText(-n) else NatText(n)
  }

  /** The number a string of decimal digits denotes. */
  function DigitsValue(s: string): nat
    requires forall k :: 0 <= k < |s| ==> IsDigit(s[k])
  {
    if |s| == 0 then 0
    else
      assert IsDigit(s[|s| - 1]);
      DigitsValue(s[..|s| - 1]) * 10 + (s[|s| - 1] as int - '0' as int)
  }

  /** Reading the decimal text of `n` back gives `n`. */
  lemma {:induction false} NatTextValue(n: nat)
    ensures DigitsValue(NatText(n)) == n
    decreases n
  {
    if n >= 10 {
      NatTextValue(n / 10);
      var s := NatText(n);
      assert s[..|s| - 1] == NatText(n / 10);
    }
  }

  /** Different naturals have different decimal texts. */
  lemma NatTextInjective(a: nat, b: nat)
    requires NatText(a) == NatText(b)
    ensures a == b
  {
    NatTextValue(a);
    NatTextValue(b);
  }

  /** Different integers have different decimal texts. */
  lemma IntTextInjective(a: int, b: int)
    requires IntText(a) == IntText(b)
    ensures a == b
  {
    assert (a < 0) == (IntText(a)[0] == '-');
    assert (b < 0) == (IntText(b)[0] == '-');
    if a < 0 {
      assert IntText(a)[1..] == NatText(-a);
      assert IntText(b)[1..] == NatText(-b);
      NatTextInjective(-a, -b);
    } else {
      NatTextInjective(a, b);
    }
  }

  /** Texts that agree after a common prefix agree. */
  lemma CommonPrefix(p: string, x: string, y: string)
    requires p + x == p + y
    ensures x == y
  {
    assert (p + x)[|p|..] == x;
    assert (p + y)[|p|..] == y;
  }

  /** A number written between the same two texts is told apart by the
      whole. */
  lemma IntTextFramed(prefix: string, suffix: string, a: int, b: int)
    requires prefix + IntText(a) + suffix == prefix + IntText(b) + suffix
    ensures a == b
  {
    var s, t := IntText(a), IntText(b);
    assert |s| == |t|;
    assert (prefix + s + suffix)[|prefix|..|prefix| + |s|] == s;
    assert (prefix + t + suffix)[|prefix|..|prefix| + |t|] == t;
    IntTextInjective(a, b);
  }
}
