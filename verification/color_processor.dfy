/** The console colour processor: `<style>text</style>` segments are
    rewritten into ANSI escape sequences (or into the bare text when colours
    are off), and colour tags can be stripped from a text. How a
    `ColorStyle` renders itself and how one is read from a `fg=...;bg=...`
    tag are given as functions rather than modelled. */
module ColorProcessor {
  import opened Wrappers
  import Strings

  /** A style as constructed: foreground, background and options. */
  datatype ColorStyle = ColorStyle(fg: string, bg: string, options: seq<string>)

  /** `ColorStyle`'s string rendering and `ColorStyle::fromString`. */
  datatype StyleCodec = StyleCodec(render: ColorStyle -> string, parse: string -> ColorStyle)

  /** The processor: the no-colours flag and the named styles. */
  datatype Processor = Processor(noColors: bool, styles: map<string, ColorStyle>)

  const Esc: char := 27 as char

  /** The four styles every processor starts with. */
  const Predefined: map<string, ColorStyle> :=
    map["info" := ColorStyle("green", "", ["bold"]),
        "comment" := ColorStyle("yellow", "", ["bold"]),
        "question" := ColorStyle("black", "cyan", []),
        "error" := ColorStyle("white", "red", [])]

  /** The constructor: colours on, exactly the predefined styles. */
  function New(): (p: Processor)
    ensures !p.noColors
    ensures p.styles.Keys == {"info", "comment", "question", "error"}
    ensures p.styles["question"] == ColorStyle("black", "cyan", [])
  {
    Processor(false, Predefined)
  }

  /** `setStyle`: adds or overwrites one named style; every other style and
      the flag stay as they were. */
  function SetStyle(p: Processor, name: string, style: ColorStyle): (r: Processor)
    ensures r.styles.Keys == p.styles.Keys + {name}
    ensures r.styles[name] == style
    ensures forall n :: n in p.styles && n != name ==> r.styles[n] == p.styles[n]
    ensures r.noColors == p.noColors
  {
    p.(styles := p.styles[name := style])
  }

  /** `addStyle`, the deprecated spelling of `setStyle`. */
  function AddStyle(p: Processor, name: string, style: ColorStyle): (r: Processor)
    ensures r == SetStyle(p, name, style)
  {
    SetStyle(p, name, style)
  }

  // -----------------------------------------------------------------------
  // Tags
  // -----------------------------------------------------------------------

  /** A character allowed in a tag name: `[a-z=;]`. */
  predicate TagChar(c: char)
  {
    'a' <= c <= 'z' || c == '=' || c == ';'
  }

  /** A tag name: one or more tag characters. */
  predicate IsTagName(t: string)
  {
    |t| > 0 && forall i :: 0 <= i < |t| ==> TagChar(t[i])
  }

  /** The length of the longest run of tag characters `s` starts with. */
  function TagRun(s: string): (n: nat)
    ensures n <= |s|
    ensures forall i :: 0 <= i < n ==> TagChar(s[i])
    ensures n < |s| ==> !TagChar(s[n])
  {
    if |s| > 0 && TagChar(s[0]) then 1 + TagRun(s[1..]) else 0
  }

  /** The run of tag characters in front of a non-tag character is exactly
      the tag name. */
  lemma {:induction false} TagRunOfName(t: string, rest: string)
    requires IsTagName(t) || t == ""
    requires |rest| > 0 && !TagChar(rest[0])
    ensures TagRun(t + rest) == |t|
    decreases |t|
  {
    if |t| > 0 {
      assert (t + rest)[1..] == t[1..] + rest;
      TagRunOfName(t[1..], rest);
    } else {
      assert t + rest == rest;
    }
  }

  function OpenTag(t: string): string { "<" + t + ">" }

  function CloseTag(t: string): string { "</" + t + ">" }

  // -----------------------------------------------------------------------
  // stripColors
  // -----------------------------------------------------------------------

  /** The length of a colour tag (`<`, an optional `/`, a tag name, `>`) at
      the start of `s`, if there is one. */
  function StripTagLength(s: string): (r: Option<nat>)
    ensures r.Some? ==> 3 <= r.value <= |s| && s[0] == '<' && s[r.value - 1] == '>'
  {
    if |s| == 0 || s[0] != '<' then None
    else
      var k := if |s| > 1 && s[1] == '/' then 2 else 1;
      var n := TagRun(s[k..]);
      if n >= 1 && k + n < |s| && s[k + n] == '>' then Some(k + n + 1) else None
  }

  /** `stripColors`: every colour tag found scanning left to right is
      removed; all other characters are kept in order. Nothing is added, and
      a text without `<` holds no tag. */
  function StripColors(s: string): (r: string)
    ensures |r| <= |s|
    ensures '<' !in s ==> r == s
    decreases |s|
  {
    if |s| == 0 then ""
    else
      match StripTagLength(s)
      case Some(n) => StripColors(s[n..])
      case None =>
        var r := StripColors(s[1..]);
        assert '<' !in s ==> [s[0]] + r == s;
        [s[0]] + r
  }

  /** Text before the first `<` is kept as it is. */
  lemma {:induction false} StripPlainPrefix(a: string, b: string)
    requires '<' !in a
    ensures StripColors(a + b) == a + StripColors(b)
    decreases |a|
  {
    if |a| == 0 {
      assert a + b == b;
    } else {
      var s := a + b;
      assert s[0] != '<' && s[0] == a[0] && s[1..] == a[1..] + b;
      StripPlainHead(s);
      assert '<' !in a[1..];
      StripPlainPrefix(a[1..], b);
      ConsRest(a, StripColors(b));
    }
  }

  /** The first character of a text, then the rest of it followed by `x`,
      is the text followed by `x`. */
  lemma ConsRest(a: string, x: string)
    requires |a| > 0
    ensures [a[0]] + (a[1..] + x) == a + x
  {
    assert [a[0]] + a[1..] == a;
  }

  /** A first character other than `<` is kept. */
  lemma StripPlainHead(s: string)
    requires |s| > 0 && s[0] != '<'
    ensures StripColors(s) == [s[0]] + StripColors(s[1..])
  {
    assert StripTagLength(s) == None;
  }

  /** A text without `<` is returned unchanged. */
  lemma StripNoTag(s: string)
    requires '<' !in s
    ensures StripColors(s) == s
  {
    StripPlainPrefix(s, "");
    assert s + "" == s;
  }

  /** An opening or closing colour tag at the front is removed. */
  lemma StripTag(t: string, closing: bool, rest: string)
    requires IsTagName(t)
    ensures StripColors((if closing then CloseTag(t) else OpenTag(t)) + rest) == StripColors(rest)
  {
    var tag := if closing then CloseTag(t) else OpenTag(t);
    TagLengthAtFront(t, closing, rest);
    assert (tag + rest)[|tag|..] == rest;
  }

  /** A colour tag at the front is recognised with its whole length. */
  lemma TagLengthAtFront(t: string, closing: bool, rest: string)
    requires IsTagName(t)
    ensures var tag := if closing then CloseTag(t) else OpenTag(t);
            StripTagLength(tag + rest) == Some(|tag|)
  {
    if closing {
      CloseTagLength(t, rest);
    } else {
      OpenTagLength(t, rest);
    }
  }

  lemma OpenTagLength(t: string, rest: string)
    requires IsTagName(t)
    ensures StripTagLength(OpenTag(t) + rest) == Some(|t| + 2)
  {
    var s := OpenTag(t) + rest;
    assert s == "<" + (t + (">" + rest));
    assert s[1..] == t + (">" + rest);
    assert s[1] == t[0] && s[1] != '/';
    TagRunOfName(t, ">" + rest);
    assert s[1 + |t|] == '>';
  }

  lemma CloseTagLength(t: string, rest: string)
    requires IsTagName(t)
    ensures StripTagLength(CloseTag(t) + rest) == Some(|t| + 3)
  {
    var s := CloseTag(t) + rest;
    assert s == "</" + (t + (">" + rest));
    assert s[0] == '<' && s[1] == '/';
    assert s[2..] == t + (">" + rest);
    TagRunOfName(t, ">" + rest);
    assert s[2 + |t|] == '>';
  }

  /** A `<` that opens no colour tag is kept, and stripping goes on after
      it. */
  lemma StripStrayAngle(rest: string)
    requires forall t :: IsTagName(t) ==> !(OpenTag(t) <= "<" + rest) && !(CloseTag(t) <= "<" + rest)
    ensures StripColors("<" + rest) == "<" + StripColors(rest)
  {
    var s := "<" + rest;
    if StripTagLength(s).Some? {
      TagLengthNamesTag(s);
      assert false;
    }
    assert s[1..] == rest;
  }

  /** A recognised tag length covers an opening or closing tag of some tag
      name. */
  lemma TagLengthNamesTag(s: string)
    requires StripTagLength(s).Some?
    ensures exists t :: IsTagName(t) && (OpenTag(t) <= s || CloseTag(t) <= s)
  {
    var k := if |s| > 1 && s[1] == '/' then 2 else 1;
    var n := TagRun(s[k..]);
    assert s[0] == '<' && 1 <= n && k + n < |s| && s[k + n] == '>';
    var t := s[k..k + n];
    assert IsTagName(t) by {
      forall i | 0 <= i < |t|
        ensures TagChar(t[i])
      {
        assert t[i] == s[k + i] == s[k..][i];
      }
    }
    if k == 2 {
      assert CloseTag(t) == s[..k + n + 1];
    } else {
      assert OpenTag(t) == s[..k + n + 1];
    }
  }

  /** Stripping a styled segment leaves its text. */
  lemma StripSegment(t: string, x: string)
    requires IsTagName(t) && '<' !in x
    ensures StripColors(OpenTag(t) + x + CloseTag(t)) == x
  {
    StripTag(t, false, x + CloseTag(t));
    assert OpenTag(t) + x + CloseTag(t) == OpenTag(t) + (x + CloseTag(t));
    StripPlainPrefix(x, CloseTag(t));
    StripTag(t, true, "");
    assert CloseTag(t) + "" == CloseTag(t);
  }

  // -----------------------------------------------------------------------
  // process
  // -----------------------------------------------------------------------

  /** The first position at which `pat` occurs in `s`. */
  function FirstOccurrence(s: string, pat: string): (r: Option<nat>)
    ensures r.Some? ==> Strings.OccursAt(s, pat, r.value)
    ensures r.Some? ==> forall j :: 0 <= j < r.value ==> !Strings.OccursAt(s, pat, j)
    ensures r.None? ==> forall j :: 0 <= j <= |s| ==> !Strings.OccursAt(s, pat, j)
    decreases |s|
  {
    if pat <= s then
      assert s[..|pat|] == pat;
      Some(0)
    else if |s| == 0 then None
    else
      var r := FirstOccurrence(s[1..], pat);
      assert forall j :: 1 <= j <= |s| && Strings.OccursAt(s, pat, j) ==> Strings.OccursAt(s[1..], pat, j - 1) by {
        forall j | 1 <= j <= |s| && Strings.OccursAt(s, pat, j)
          ensures Strings.OccursAt(s[1..], pat, j - 1)
        {
          Strings.OccursInTail(s, pat, j - 1);
        }
      }
      assert !Strings.OccursAt(s, pat, 0);
      match r
      case Some(i) =>
        Strings.OccursInTail(s, pat, i);
        Some(i + 1)
      case None => None
  }

  /** A `<tag>content</tag>` match: the tag name and the content. */
  datatype Match = Match(tag: string, content: string)

  /** The text a match covers. */
  function Segment(m: Match): string
  {
    OpenTag(m.tag) + m.content + CloseTag(m.tag)
  }

  /** A match of `<([a-z=;]+)>(.*?)</\1>` starting at the front of `s`,
      with the number of characters it covers: the content is the shortest
      one followed by the closing tag, newlines included. There is no match
      exactly when no segment starts `s`. */
  function MatchAt(s: string): (r: Option<(Match, nat)>)
    ensures r.Some? ==> IsTagName(r.value.0.tag)
    ensures r.Some? ==> 0 < r.value.1 <= |s| && s[..r.value.1] == Segment(r.value.0)
    ensures r.Some? ==> 2 + |r.value.0.tag| <= |s|
                        && CloseBefore(s[2 + |r.value.0.tag|..], r.value.0.tag, |r.value.0.content|)
    ensures r.None? ==> forall m: Match :: IsTagName(m.tag) ==> !(Segment(m) <= s)
  {
    if |s| == 0 || s[0] != '<' then NoOpeningTag(s); None
    else
      var n := TagRun(s[1..]);
      if n == 0 || 1 + n >= |s| || s[1 + n] != '>' then NoTagName(s, n); None
      else
        var t := s[1..1 + n];
        var rest := s[2 + n..];
        TagNameAtFront(s, n);
        match FirstOccurrence(rest, CloseTag(t))
        case None => NoClosingTag(s, t); None
        case Some(j) => Some(FoundMatch(s, t, j))
  }

  /** The match an opening tag at the front and the first closing tag after
      it make, with the number of characters it covers. */
  function FoundMatch(s: string, t: string, j: nat): (r: (Match, nat))
    requires 2 + |t| <= |s| && s[0] == '<' && s[1..1 + |t|] == t && s[1 + |t|] == '>'
    requires IsTagName(t)
    requires FirstOccurrence(s[2 + |t|..], CloseTag(t)) == Some(j)
    ensures IsTagName(r.0.tag)
    ensures 0 < r.1 <= |s| && s[..r.1] == Segment(r.0)
    ensures 2 + |r.0.tag| <= |s| && CloseBefore(s[2 + |r.0.tag|..], r.0.tag, |r.0.content|)
  {
    MatchFound(s, t, j);
    (Match(t, s[2 + |t|..][..j]), 2 + |t| + j + |CloseTag(t)|)
  }

  /** An opening tag at the front and the first closing tag after it: the
      segment they enclose, with its content ended by the first closing
      tag. */
  lemma MatchFound(s: string, t: string, j: nat)
    requires 2 + |t| <= |s| && s[0] == '<' && s[1..1 + |t|] == t && s[1 + |t|] == '>'
    requires FirstOccurrence(s[2 + |t|..], CloseTag(t)) == Some(j)
    ensures j <= |s[2 + |t|..]|
    ensures var m := Match(t, s[2 + |t|..][..j]);
            var len := 2 + |t| + j + |CloseTag(t)|;
            && 0 < len <= |s| && s[..len] == Segment(m)
            && 2 + |m.tag| <= |s| && CloseBefore(s[2 + |m.tag|..], m.tag, |m.content|)
  {
    SegmentAtFront(s, t, j);
  }

  /** The `.*?` of the pattern: in the text after an opening tag, the
      closing tag does not occur before position `n`. */
  predicate CloseBefore(rest: string, t: string, n: nat)
  {
    forall j :: 0 <= j < n ==> !Strings.OccursAt(rest, CloseTag(t), j)
  }

  /** The layout of a segment: opening tag, content, closing tag. */
  lemma SegmentLayout(m: Match)
    ensures var t := m.tag; var seg := Segment(m);
            && |seg| == 2 + |t| + |m.content| + |CloseTag(t)|
            && seg[0] == '<' && seg[1..1 + |t|] == t && seg[1 + |t|] == '>'
            && seg[2 + |t| + |m.content|..] == CloseTag(m.tag)
  {
    var t := m.tag;
    assert Segment(m) == "<" + (t + (">" + (m.content + CloseTag(t))));
  }

  /** Slices of a prefix are slices of the text. */
  lemma PrefixSlice(s: string, p: string, a: nat, b: nat)
    requires p <= s && a <= b <= |p|
    ensures s[a..b] == p[a..b]
  {
    assert s[..|p|] == p;
  }

  /** A segment at the front of `s` shows as an opening tag whose name is
      the whole run of tag characters, followed by its closing tag. */
  lemma SegmentPrefix(s: string, m: Match)
    requires IsTagName(m.tag)
    ensures Segment(m) <= s ==>
              var t := m.tag;
              && 1 + |t| < |s| && s[0] == '<' && TagRun(s[1..]) == |t| && s[1 + |t|] == '>'
              && s[1..1 + |t|] == t
              && Strings.OccursAt(s[2 + |t|..], CloseTag(t), |m.content|)
  {
    var t := m.tag;
    var seg := Segment(m);
    if seg <= s {
      SegmentLayout(m);
      PrefixSlice(s, seg, 1, 1 + |t|);
      assert s[0] == seg[0] && s[1 + |t|] == seg[1 + |t|];
      assert s[1..] == t + s[1 + |t|..];
      TagRunOfName(t, s[1 + |t|..]);
      SegmentPrefixClose(s, m);
    }
  }

  /** The closing tag of a segment at the front of `s` follows its content. */
  lemma SegmentPrefixClose(s: string, m: Match)
    requires Segment(m) <= s
    ensures 2 + |m.tag| <= |s| && Strings.OccursAt(s[2 + |m.tag|..], CloseTag(m.tag), |m.content|)
  {
    var t := m.tag;
    var seg := Segment(m);
    var k := 2 + |t| + |m.content|;
    SegmentLayout(m);
    PrefixSlice(s, seg, k, |seg|);
    assert s[2 + |t|..][|m.content|..|m.content| + |CloseTag(t)|] == s[k..|seg|];
  }

  /** No segment starts a text that does not start with `<`. */
  lemma NoOpeningTag(s: string)
    requires |s| == 0 || s[0] != '<'
    ensures forall m: Match :: IsTagName(m.tag) ==> !(Segment(m) <= s)
  {
    forall m: Match | IsTagName(m.tag)
      ensures !(Segment(m) <= s)
    {
      SegmentPrefix(s, m);
    }
  }

  /** No segment starts a `<` not followed by a tag name and `>`. */
  lemma NoTagName(s: string, n: nat)
    requires |s| > 0 && n == TagRun(s[1..])
    requires n == 0 || 1 + n >= |s| || s[1 + n] != '>'
    ensures forall m: Match :: IsTagName(m.tag) ==> !(Segment(m) <= s)
  {
    forall m: Match | IsTagName(m.tag)
      ensures !(Segment(m) <= s)
    {
      SegmentPrefix(s, m);
    }
  }

  /** No segment starts an opening tag whose closing tag never follows. */
  lemma NoClosingTag(s: string, t: string)
    requires 2 + |t| <= |s| && TagRun(s[1..]) == |t| && s[1..1 + |t|] == t
    requires FirstOccurrence(s[2 + |t|..], CloseTag(t)) == None
    ensures forall m: Match :: IsTagName(m.tag) ==> !(Segment(m) <= s)
  {
    forall m: Match | IsTagName(m.tag)
      ensures !(Segment(m) <= s)
    {
      SegmentPrefix(s, m);
    }
  }

  /** The run of tag characters after a `<` is a tag name. */
  lemma TagNameAtFront(s: string, n: nat)
    requires 1 <= n < |s| && n == TagRun(s[1..])
    ensures |s[1..1 + n]| == n && IsTagName(s[1..1 + n])
  {
    assert forall i :: 0 <= i < n ==> s[1..1 + n][i] == s[1..][i];
  }

  /** An opening tag at the front and a closing tag `j` characters after it
      make up a segment. */
  lemma SegmentAtFront(s: string, t: string, j: nat)
    requires |t| + 2 <= |s| && s[0] == '<' && s[1..1 + |t|] == t && s[1 + |t|] == '>'
    requires Strings.OccursAt(s[2 + |t|..], CloseTag(t), j)
    ensures s[..2 + |t| + j + |CloseTag(t)|] == OpenTag(t) + s[2 + |t|..][..j] + CloseTag(t)
  {
    var k := 2 + |t|;
    var c := CloseTag(t);
    var rest := s[k..];
    OpenTagAtFront(s, t);
    SliceSplit(s, k, k + j, k + j + |c|);
    assert s[k..k + j] == rest[..j];
    assert s[k + j..k + j + |c|] == rest[j..j + |c|];
  }

  /** `<t>` at the front of `s`. */
  lemma OpenTagAtFront(s: string, t: string)
    requires |t| + 2 <= |s| && s[0] == '<' && s[1..1 + |t|] == t && s[1 + |t|] == '>'
    ensures s[..2 + |t|] == OpenTag(t)
  {
    assert s[..2 + |t|] == [s[0]] + s[1..1 + |t|] + [s[1 + |t|]];
  }

  /** A prefix cut in two at `b`, the second part ending at `c`. */
  lemma SliceSplit(s: string, a: nat, b: nat, c: nat)
    requires a <= b <= c <= |s|
    ensures s[..c] == s[..a] + s[a..b] + s[b..c]
  {
  }
  /** `preg_match_all`: the matches found scanning left to right, each search
      resuming after the previous match. */
  function Matches(s: string): (ms: seq<Match>)
    ensures forall i :: 0 <= i < |ms| ==> IsTagName(ms[i].tag)
    ensures forall i :: 0 <= i < |ms| ==> Strings.Occurs(s, Segment(ms[i]))
    ensures '<' !in s ==> ms == []
    decreases |s|
  {
    if |s| == 0 then []
    else
      match MatchAt(s)
      case Some((m, len)) =>
        var tail := Matches(s[len..]);
        OccurInSuffix(s, len, tail);
        assert Strings.OccursAt(s, Segment(m), 0) by {
          assert s[..len] == Segment(m);
        }
        ConsMatches(s, m, tail);
        [m] + tail
      case None =>
        var tail := Matches(s[1..]);
        OccurInSuffix(s, 1, tail);
        tail
  }

  /** A match at the front of `s`, followed by matches that occur in `s`:
      every one has a tag name and occurs, and `s` holds a `<`. */
  lemma ConsMatches(s: string, m: Match, tail: seq<Match>)
    requires IsTagName(m.tag) && Strings.OccursAt(s, Segment(m), 0)
    requires forall i :: 0 <= i < |tail| ==> IsTagName(tail[i].tag)
    requires forall i :: 0 <= i < |tail| ==> Strings.Occurs(s, Segment(tail[i]))
    ensures forall i :: 0 <= i < |[m] + tail| ==> IsTagName(([m] + tail)[i].tag)
    ensures forall i :: 0 <= i < |[m] + tail| ==> Strings.Occurs(s, Segment(([m] + tail)[i]))
    ensures '<' in s
  {
    assert s[0] == Segment(m)[0] == '<' by {
      assert s[0..|Segment(m)|] == Segment(m);
    }
    forall i | 0 <= i < |[m] + tail|
      ensures IsTagName(([m] + tail)[i].tag) && Strings.Occurs(s, Segment(([m] + tail)[i]))
    {
      if i > 0 {
        assert ([m] + tail)[i] == tail[i - 1];
      }
    }
  }

  /** Segments occurring in a suffix of `s` occur in `s`. */
  lemma OccurInSuffix(s: string, d: nat, ms: seq<Match>)
    requires d <= |s|
    requires forall i :: 0 <= i < |ms| ==> Strings.Occurs(s[d..], Segment(ms[i]))
    ensures forall i :: 0 <= i < |ms| ==> Strings.Occurs(s, Segment(ms[i]))
  {
    forall i | 0 <= i < |ms|
      ensures Strings.Occurs(s, Segment(ms[i]))
    {
      var k :| 0 <= k <= |s[d..]| && Strings.OccursAt(s[d..], Segment(ms[i]), k);
      Strings.OccursInSuffix(s, Segment(ms[i]), d, k);
    }
  }

  /** `strpos($tag, '=')` is truthy: an `=` occurs after the first
      character. */
  predicate IsCustomFormat(t: string)
  {
    Strings.IndexOf(t, '=') > 0
  }

  /** The rendered style a tag is rewritten with: its registered style, else
      the style read from a custom format; none for any other tag. */
  function StyleFor(p: Processor, codec: StyleCodec, t: string): (r: Option<string>)
    ensures r.Some? <==> t in p.styles || IsCustomFormat(t)
    ensures t in p.styles ==> r == Some(codec.render(p.styles[t]))
  {
    if t in p.styles then Some(codec.render(p.styles[t]))
    else if IsCustomFormat(t) then Some(codec.render(codec.parse(t)))
    else None
  }

  /** The text a segment becomes: the bare content without colours, the
      content wrapped in the style's escape sequence and the reset sequence
      otherwise. */
  function Replacement(p: Processor, style: string, content: string): string
  {
    if p.noColors then content else [Esc] + "[" + style + "m" + content + [Esc] + "[0m"
  }

  /** `replaceColors`: every occurrence of the whole segment in the current
      text is replaced, not just the matched one. A text without the segment
      is left as it is, and the segment alone becomes its replacement. */
  function ReplaceColors(p: Processor, text: string, m: Match, style: string): (r: string)
    ensures !Strings.Occurs(text, Segment(m)) ==> r == text
    ensures text == Segment(m) ==> r == Replacement(p, style, m.content)
    ensures forall c :: c in r ==> c in text || c in Replacement(p, style, m.content)
  {
    var seg := Segment(m);
    var rep := Replacement(p, style, m.content);
    assert !Strings.Occurs(text, seg) ==> Strings.ReplaceAll(text, seg, rep) == text by {
      if !Strings.Occurs(text, seg) {
        Strings.ReplaceAbsent(text, seg, rep);
      }
    }
    assert text == seg ==> Strings.ReplaceAll(text, seg, rep) == rep by {
      if text == seg {
        SegmentLayout(m);
        ReplaceWhole(seg, rep);
      }
    }
    Strings.ReplaceAll(text, seg, rep)
  }

  /** A match is left alone when its tag has no style or its segment no
      longer occurs in the text. */
  predicate Inert(p: Processor, codec: StyleCodec, text: string, m: Match)
  {
    StyleFor(p, codec, m.tag).None? || !Strings.Occurs(text, Segment(m))
  }

  /** The matches applied in order to the text as it stands after the
      earlier ones; matches that are all inert leave the text unchanged. */
  function ApplyMatches(p: Processor, codec: StyleCodec, text: string, ms: seq<Match>): (r: string)
    ensures (forall i :: 0 <= i < |ms| ==> Inert(p, codec, text, ms[i])) ==> r == text
    decreases |ms|
  {
    if |ms| == 0 then text
    else
      var next :=
        match StyleFor(p, codec, ms[0].tag)
        case Some(style) => ReplaceColors(p, text, ms[0], style)
        case None => text;
      assert (forall i :: 0 <= i < |ms| ==> Inert(p, codec, text, ms[i])) ==> next == text;
      ApplyMatches(p, codec, next, ms[1..])
  }

  /** `process`: a text without `<`, or one whose tags have no style, comes
      back unchanged. */
  function Process(p: Processor, codec: StyleCodec, s: string): (r: string)
    ensures '<' !in s ==> r == s
    ensures (forall i :: 0 <= i < |Matches(s)| ==> StyleFor(p, codec, Matches(s)[i].tag).None?) ==> r == s
  {
    ApplyMatches(p, codec, s, Matches(s))
  }

  // -----------------------------------------------------------------------
  // Properties of process
  // -----------------------------------------------------------------------

  /** A text without `<` holds no match. */
  lemma {:induction false} MatchesNoTag(s: string)
    requires '<' !in s
    ensures Matches(s) == []
    decreases |s|
  {
    if |s| > 0 {
      assert '<' !in s[1..];
      MatchesNoTag(s[1..]);
    }
  }

  /** `process` returns a text without `<` unchanged. */
  lemma ProcessNoTag(p: Processor, codec: StyleCodec, s: string)
    requires '<' !in s
    ensures Process(p, codec, s) == s
  {
    MatchesNoTag(s);
  }

  /** The closing tag is found right after content without `<`. */
  lemma FirstOccurrenceAfterPlain(x: string, pat: string, v: string)
    requires '<' !in x && |pat| > 0 && pat[0] == '<'
    ensures FirstOccurrence(x + pat + v, pat) == Some(|x|)
  {
    var s := x + pat + v;
    assert s[|x|..|x| + |pat|] == pat;
    assert forall j :: 0 <= j < |x| ==> !Strings.OccursAt(s, pat, j);
    assert Strings.OccursAt(s, pat, |x|);
  }

  /** A single styled segment whose content holds no `<` is one match. */
  lemma MatchesSegment(t: string, x: string)
    requires IsTagName(t) && '<' !in x
    ensures Matches(Segment(Match(t, x))) == [Match(t, x)]
  {
    MatchesSegmentThen(t, x, "");
    assert Segment(Match(t, x)) + "" == Segment(Match(t, x));
  }

  /** A segment followed by text without `<` is one match. */
  lemma MatchesSegmentThen(t: string, x: string, v: string)
    requires IsTagName(t) && '<' !in x && '<' !in v
    ensures Matches(Segment(Match(t, x)) + v) == [Match(t, x)]
  {
    var s := Segment(Match(t, x)) + v;
    MatchAtSegment(t, x, v);
    assert s[|Segment(Match(t, x))|..] == v;
  }

  /** Text without `<` in front of the rest adds no match. */
  lemma {:induction false} MatchesPlainPrefix(u: string, w: string)
    requires '<' !in u
    ensures Matches(u + w) == Matches(w)
    decreases |u|
  {
    if |u| > 0 {
      var s := u + w;
      assert s[0] == u[0] && s[0] != '<';
      assert s[1..] == u[1..] + w;
      MatchesPlainPrefix(u[1..], w);
    } else {
      assert u + w == w;
    }
  }

  /** The match at the front of a styled segment covers all of it, whatever
      follows. */
  lemma MatchAtSegment(t: string, x: string, v: string)
    requires IsTagName(t) && '<' !in x
    ensures MatchAt(Segment(Match(t, x)) + v) == Some((Match(t, x), |Segment(Match(t, x))|))
  {
    SegmentFront(t, x, v);
    MatchAtUnfold(Segment(Match(t, x)) + v, t, |x|);
  }

  /** A segment at the front of a text, as `MatchAt` reads it: the opening
      tag, the tag name as the whole run of tag characters, and the closing
      tag first found right after the content. */
  lemma SegmentFront(t: string, x: string, v: string)
    requires IsTagName(t) && '<' !in x
    ensures var s := Segment(Match(t, x)) + v;
            && |t| >= 1 && |t| + 1 < |s| && s[0] == '<' && s[1 + |t|] == '>'
            && TagRun(s[1..]) == |t| && s[1..1 + |t|] == t
            && FirstOccurrence(s[2 + |t|..], CloseTag(t)) == Some(|x|)
            && s[2 + |t|..][..|x|] == x
            && 2 + |t| + |x| + |CloseTag(t)| == |Segment(Match(t, x))|
  {
    var s := Segment(Match(t, x)) + v;
    var rest := x + CloseTag(t) + v;
    SegmentThenSlices(t, x, v);
    assert TagRun(s[1..]) == |t| by {
      TagRunOfName(t, ">" + rest);
    }
    assert FirstOccurrence(s[2 + |t|..], CloseTag(t)) == Some(|x|) by {
      FirstOccurrenceAfterPlain(x, CloseTag(t), v);
    }
    assert s[2 + |t|..][..|x|] == x by {
      assert rest[..|x|] == x;
    }
  }

  /** The slices of a segment followed by more text: the opening tag, the
      tag name, and what follows the opening tag. */
  lemma SegmentThenSlices(t: string, x: string, v: string)
    ensures var s := Segment(Match(t, x)) + v;
            var rest := x + CloseTag(t) + v;
            && |s| == 2 + |t| + |rest| && |Segment(Match(t, x))| == 2 + |t| + |x| + |CloseTag(t)|
            && s[0] == '<' && s[1 + |t|] == '>' && s[1..] == t + (">" + rest)
            && s[1..1 + |t|] == t && s[2 + |t|..] == rest
  {
    var s := Segment(Match(t, x)) + v;
    var rest := x + CloseTag(t) + v;
    assert s == "<" + (t + (">" + rest));
    assert s[1..] == t + (">" + rest);
    assert s[1..][..|t|] == t;
    assert s[1..][1 + |t|..] == rest;
  }

  /** `MatchAt` on a text that starts with the opening tag `<t>` and whose
      closing tag first occurs `j` characters after it. */
  lemma MatchAtUnfold(s: string, t: string, j: nat)
    requires |t| >= 1 && |t| + 1 < |s| && s[0] == '<' && s[1 + |t|] == '>'
    requires TagRun(s[1..]) == |t| && s[1..1 + |t|] == t
    requires FirstOccurrence(s[2 + |t|..], CloseTag(t)) == Some(j)
    ensures MatchAt(s) == Some((Match(t, s[2 + |t|..][..j]), 2 + |t| + j + |CloseTag(t)|))
  {
    TagNameAtFront(s, |t|);
    assert MatchAt(s) == Some(FoundMatch(s, t, j));
  }

  /** Replacing a whole text that is the pattern gives the replacement. */
  lemma ReplaceWhole(pat: string, rep: string)
    requires |pat| > 0
    ensures Strings.ReplaceAll(pat, pat, rep) == rep
  {
    assert "" + pat + "" == pat;
    Strings.ReplaceFirst("", pat, "", rep);
    assert "" + rep + "" == rep;
  }

  /** `process` on one styled segment: a registered or custom-format tag is
      rewritten into its replacement, any other tag is left intact. */
  lemma ProcessSegment(p: Processor, codec: StyleCodec, t: string, x: string)
    requires IsTagName(t) && '<' !in x
    ensures var s := OpenTag(t) + x + CloseTag(t);
            Process(p, codec, s) ==
              match StyleFor(p, codec, t)
              case Some(style) => Replacement(p, style, x)
              case None => s
  {
    var m := Match(t, x);
    var s := Segment(m);
    MatchesSegment(t, x);
    assert Process(p, codec, s) == ApplyMatches(p, codec, s, [m]);
    match StyleFor(p, codec, t)
    case Some(style) =>
      ReplaceWhole(s, Replacement(p, style, x));
      assert ApplyMatches(p, codec, s, [m]) == ApplyMatches(p, codec, ReplaceColors(p, s, m, style), []);
    case None =>
      assert ApplyMatches(p, codec, s, [m]) == ApplyMatches(p, codec, s, []);
  }

  /** `process` on one styled segment between texts without `<`: the
      segment is rewritten into its replacement when its tag has a style,
      and kept otherwise; the texts around it are kept. */
  lemma ProcessAroundSegment(p: Processor, codec: StyleCodec, u: string, t: string, x: string, v: string)
    requires IsTagName(t) && '<' !in u && '<' !in x && '<' !in v
    ensures var seg := OpenTag(t) + x + CloseTag(t);
            Process(p, codec, u + seg + v) ==
              u + (match StyleFor(p, codec, t)
                   case Some(style) => Replacement(p, style, x)
                   case None => seg) + v
  {
    var m := Match(t, x);
    var seg := Segment(m);
    var s := u + seg + v;
    assert s == u + (seg + v);
    MatchesPlainPrefix(u, seg + v);
    MatchesSegmentThen(t, x, v);
    assert ApplyMatches(p, codec, s, [m]) == Process(p, codec, s);
    match StyleFor(p, codec, t)
    case Some(style) =>
      var rep := Replacement(p, style, x);
      SegmentLayout(m);
      NoOccurrenceInPlain(u, seg, v);
      Strings.ReplaceFirst(u, seg, v, rep);
      PlainHasNoSegment(v, seg);
      Strings.ReplaceAbsent(v, seg, rep);
      assert ApplyMatches(p, codec, s, [m]) == ApplyMatches(p, codec, ReplaceColors(p, s, m, style), []);
    case None =>
      assert ApplyMatches(p, codec, s, [m]) == ApplyMatches(p, codec, s, []);
  }

  /** A pattern starting with `<` does not occur in text without `<`. */
  lemma PlainHasNoSegment(v: string, pat: string)
    requires '<' !in v && |pat| > 0 && pat[0] == '<'
    ensures forall i :: 0 <= i < |v| ==> !Strings.OccursAt(v, pat, i)
  {
    forall i | 0 <= i < |v|
      ensures !Strings.OccursAt(v, pat, i)
    {
      if i + |pat| <= |v| {
        assert v[i..i + |pat|][0] == v[i];
      }
    }
  }

  /** With colours off, processing a styled segment gives what stripping its
      tags gives: the bare content. */
  lemma NoColorsAgreesWithStrip(p: Processor, codec: StyleCodec, t: string, x: string)
    requires p.noColors && IsTagName(t) && '<' !in x
    requires t in p.styles || IsCustomFormat(t)
    ensures Process(p, codec, OpenTag(t) + x + CloseTag(t)) == StripColors(OpenTag(t) + x + CloseTag(t)) == x
  {
    ProcessSegment(p, codec, t, x);
    StripSegment(t, x);
  }

  /** A tag whose only `=` is its first character is neither registered by
      default nor a custom format, so it is left intact. */
  lemma LeadingEqualsNotCustom(t: string)
    requires |t| > 0 && t[0] == '=' && '=' !in t[1..]
    ensures !IsCustomFormat(t)
    ensures t !in New().styles
  {
  }

  /** Every occurrence of a rewritten segment is replaced, including ones
      after the match: two copies around text without `<` both become the
      replacement. */
  lemma ReplaceColorsEveryOccurrence(p: Processor, m: Match, style: string, mid: string)
    requires IsTagName(m.tag) && '<' !in mid
    ensures var seg := Segment(m);
            ReplaceColors(p, seg + mid + seg, m, style) ==
              Replacement(p, style, m.content) + mid + Replacement(p, style, m.content)
  {
    ReplaceAroundPlain(Segment(m), mid, Replacement(p, style, m.content));
  }

  /** Two copies of a pattern starting with `<` around text without `<`: both
      copies are replaced. */
  lemma ReplaceAroundPlain(seg: string, mid: string, rep: string)
    requires |seg| > 0 && seg[0] == '<' && '<' !in mid
    ensures Strings.ReplaceAll(seg + mid + seg, seg, rep) == rep + mid + rep
  {
    assert seg + mid + seg == seg + (mid + seg);
    ReplaceLeadingCopy(seg, mid + seg, rep);
    ReplaceAfterPlain(mid, seg, rep);
    assert rep + (mid + rep) == rep + mid + rep;
  }

  /** A copy of the pattern at the front is replaced, and the search resumes
      after it. */
  lemma ReplaceLeadingCopy(seg: string, v: string, rep: string)
    requires |seg| > 0
    ensures Strings.ReplaceAll(seg + v, seg, rep) == rep + Strings.ReplaceAll(v, seg, rep)
  {
    assert seg + v == "" + seg + v;
    Strings.ReplaceFirst("", seg, v, rep);
    assert "" + rep == rep;
  }

  /** Text without `<` followed by the pattern: the text is kept and the
      pattern replaced. */
  lemma ReplaceAfterPlain(mid: string, seg: string, rep: string)
    requires |seg| > 0 && seg[0] == '<' && '<' !in mid
    ensures Strings.ReplaceAll(mid + seg, seg, rep) == mid + rep
  {
    NoOccurrenceInPlain(mid, seg, "");
    assert mid + seg == mid + seg + "";
    Strings.ReplaceFirst(mid, seg, "", rep);
    assert Strings.ReplaceAll("", seg, rep) == "";
    assert mid + rep + "" == mid + rep;
  }

  /** A pattern starting with `<` does not occur inside text without `<`. */
  lemma NoOccurrenceInPlain(x: string, pat: string, v: string)
    requires '<' !in x && |pat| > 0 && pat[0] == '<'
    ensures forall i :: 0 <= i < |x| ==> !Strings.OccursAt(x + pat + v, pat, i)
  {
    var s := x + pat + v;
    forall i | 0 <= i < |x|
      ensures !Strings.OccursAt(s, pat, i)
    {
      assert s[i] == x[i];
      if i + |pat| <= |s| {
        assert s[i..i + |pat|][0] == s[i];
      }
    }
  }
}
