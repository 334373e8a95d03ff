/** The parts of the web client description that depend only on the request
    headers: the accepted encodings and languages, the request headers read
    from the server variables, and whether a platform is mobile. User-agent
    detection (platform, engine, browser, robot) is not part of this
    model. */
module WebClient {
  import Strings
  import Assoc

  // -----------------------------------------------------------------------
  // Accept-Encoding and Accept-Language
  // -----------------------------------------------------------------------

  /** A header list: the header cut at every comma, each piece trimmed of
      whitespace, in order; unknown tokens are kept as they are. */
  function ParseList(header: string): (items: seq<string>)
    ensures |items| == Strings.Count(header, ',') + 1
    ensures forall i :: 0 <= i < |items| ==> ',' !in items[i]
    ensures forall i :: 0 <= i < |items| && |items[i]| > 0 ==>
              items[i][0] !in Strings.Whitespace && items[i][|items[i]| - 1] !in Strings.Whitespace
  {
    var parts := Strings.Split(header, ',');
    var items := seq(|parts|, i requires 0 <= i < |parts| => Strings.Trim(parts[i], Strings.Whitespace));
    assert forall i :: 0 <= i < |items| ==> ',' !in items[i] by {
      forall i | 0 <= i < |items|
        ensures ',' !in items[i]
      {
        TrimmedIsSlice(parts[i]);
      }
    }
    items
  }

  /** A trimmed text holds only characters of the text. */
  lemma TrimmedIsSlice(s: string)
    ensures forall c :: c in Strings.Trim(s, Strings.Whitespace) ==> c in s
  {
    var t := Strings.Trim(s, Strings.Whitespace);
    var lo := Strings.SkipForward(s, Strings.Whitespace, 0);
    forall c | c in t
      ensures c in s
    {
      var k :| 0 <= k < |t| && t[k] == c;
      assert s[lo + k] == c;
    }
  }

  /** `detectEncoding`: the list of the `Accept-Encoding` header. */
  function Encodings(acceptEncoding: string): (items: seq<string>)
    ensures |items| == Strings.Count(acceptEncoding, ',') + 1
    ensures forall i :: 0 <= i < |items| ==>
              items[i] == Strings.Trim(Strings.Split(acceptEncoding, ',')[i], Strings.Whitespace)
  {
    ParseList(acceptEncoding)
  }

  /** `detectLanguage`: the list of the `Accept-Language` header. */
  function Languages(acceptLanguage: string): (items: seq<string>)
    ensures |items| == Strings.Count(acceptLanguage, ',') + 1
    ensures forall i :: 0 <= i < |items| ==>
              items[i] == Strings.Trim(Strings.Split(acceptLanguage, ',')[i], Strings.Whitespace)
  {
    ParseList(acceptLanguage)
  }

  /** Reading back a comma-joined list gives each piece trimmed, in order. */
  lemma ParseJoinedList(parts: seq<string>)
    requires |parts| >= 1
    requires forall i :: 0 <= i < |parts| ==> ',' !in parts[i]
    ensures ParseList(Strings.Join(parts, ',')) ==
            seq(|parts|, i requires 0 <= i < |parts| => Strings.Trim(parts[i], Strings.Whitespace))
  {
    Strings.SplitJoin(parts, ',');
  }

  /** Tokens without commas and surrounding whitespace come back exactly,
      whitespace around them in the header notwithstanding. */
  lemma ParsePaddedList(tokens: seq<string>, pads: seq<(string, string)>)
    requires |tokens| >= 1 && |pads| == |tokens|
    requires forall i :: 0 <= i < |tokens| ==> ',' !in tokens[i]
    requires forall i :: 0 <= i < |tokens| && |tokens[i]| > 0 ==>
               tokens[i][0] !in Strings.Whitespace && tokens[i][|tokens[i]| - 1] !in Strings.Whitespace
    requires forall i :: 0 <= i < |pads| ==> IsBlank(pads[i].0) && IsBlank(pads[i].1)
    ensures ParseList(Strings.Join(Pad(tokens, pads), ',')) == tokens
  {
    var parts := Pad(tokens, pads);
    forall i | 0 <= i < |parts|
      ensures ',' !in parts[i]
    {
      assert parts[i] == pads[i].0 + tokens[i] + pads[i].1;
      assert ',' !in pads[i].0 && ',' !in pads[i].1;
    }
    ParseJoinedList(parts);
    forall i | 0 <= i < |parts|
      ensures Strings.Trim(parts[i], Strings.Whitespace) == tokens[i]
    {
      TrimPadded(pads[i].0, tokens[i], pads[i].1);
    }
  }

  /** Only whitespace. */
  predicate IsBlank(s: string)
  {
    forall i :: 0 <= i < |s| ==> s[i] in Strings.Whitespace
  }

  /** Each token with its padding around it. */
  function Pad(tokens: seq<string>, pads: seq<(string, string)>): (r: seq<string>)
    requires |pads| == |tokens|
    ensures |r| == |tokens|
    ensures forall i :: 0 <= i < |r| ==> r[i] == pads[i].0 + tokens[i] + pads[i].1
  {
    seq(|tokens|, i requires 0 <= i < |tokens| => pads[i].0 + tokens[i] + pads[i].1)
  }

  /** Trimming removes exactly blank padding around a trimmed token. */
  lemma TrimPadded(left: string, token: string, right: string)
    requires IsBlank(left) && IsBlank(right)
    requires |token| > 0 ==> token[0] !in Strings.Whitespace && token[|token| - 1] !in Strings.Whitespace
    ensures Strings.Trim(left + token + right, Strings.Whitespace) == token
  {
    var s := left + token + right;
    var t := Strings.Trim(s, Strings.Whitespace);
    var lo := Strings.SkipForward(s, Strings.Whitespace, 0);
    if |token| > 0 {
      assert s[|left|] == token[0];
      assert s[|left| + |token| - 1] == token[|token| - 1];
      assert lo == |left|;
      assert lo + |t| == |left| + |token|;
      assert t == s[|left|..|left| + |token|];
    }
  }

  // -----------------------------------------------------------------------
  // Request headers
  // -----------------------------------------------------------------------

  /** The first letter in upper case, the others as given. */
  function Capitalize(w: string): string
  {
    if |w| == 0 then w else [Strings.UpperChar(w[0])] + w[1..]
  }

  /** The header name of the part of a server key after `HTTP_`: words cut at
      `_`, lower-cased with an upper-case first letter, joined with `-`. */
  function HeaderName(key: string): (name: string)
    ensures '_' !in name
    ensures |name| == |key|
  {
    var words := Strings.Split(key, '_');
    var cased := seq(|words|, i requires 0 <= i < |words| => Capitalize(Strings.Lower(words[i])));
    assert forall i :: 0 <= i < |cased| ==> '_' !in cased[i] by {
      forall i | 0 <= i < |cased|
        ensures '_' !in cased[i]
      {
        assert '_' !in words[i];
        assert forall k :: 0 <= k < |words[i]| ==> Strings.LowerChar(words[i][k]) != '_';
      }
    }
    JoinAvoids(cased, '-', '_');
    JoinCased(words, cased);
    Strings.Join(cased, '-')
  }

  /** The header name, one character at a time: `_` becomes `-`, a letter
      starting the key or following `_` is upper case, every other letter
      lower case. */
  function CharwiseName(key: string): (name: string)
    ensures |name| == |key|
  {
    seq(|key|, i requires 0 <= i < |key| =>
      if key[i] == '_' then '-'
      else if i == 0 || key[i - 1] == '_' then Strings.UpperChar(Strings.LowerChar(key[i]))
      else Strings.LowerChar(key[i]))
  }

  /** A single word is cased like `Capitalize(Lower(w))`. */
  lemma WordCharwise(w: string)
    requires '_' !in w
    ensures Capitalize(Strings.Lower(w)) == CharwiseName(w)
  {
    var l := Strings.Lower(w);
    var c := Capitalize(l);
    var n := CharwiseName(w);
    if |w| > 0 {
      assert |c| == |n|;
      forall i | 0 <= i < |w|
        ensures c[i] == n[i]
      {
        if i > 0 {
          assert w[i - 1] != '_';
          assert c[i] == l[i];
        }
      }
    }
  }

  /** Casing a key cut at its first `_` cases each side apart, with `-`
      between. */
  lemma CharwiseAtSeparator(a: string, b: string)
    requires '_' !in a
    ensures CharwiseName(a + "_" + b) == CharwiseName(a) + "-" + CharwiseName(b)
  {
    var key := a + "_" + b;
    var l := CharwiseName(key);
    var r := CharwiseName(a) + "-" + CharwiseName(b);
    assert |l| == |r|;
    forall i | 0 <= i < |key|
      ensures l[i] == r[i]
    {
      if i < |a| {
        assert key[i] == a[i];
        if i > 0 {
          assert key[i - 1] == a[i - 1];
        }
      } else if i == |a| {
        assert key[i] == '_';
      } else {
        var j := i - |a| - 1;
        assert key[i] == b[j];
        if j > 0 {
          assert key[i - 1] == b[j - 1];
        } else {
          assert key[i - 1] == '_';
        }
      }
    }
  }

  /** Casing the words of a key and joining them with `-` cases the key
      character by character. */
  lemma {:induction false} JoinCased(words: seq<string>, cased: seq<string>)
    requires |words| >= 1 && |cased| == |words|
    requires forall i :: 0 <= i < |words| ==> '_' !in words[i]
    requires forall i :: 0 <= i < |words| ==> cased[i] == Capitalize(Strings.Lower(words[i]))
    ensures Strings.Join(cased, '-') == CharwiseName(Strings.Join(words, '_'))
    decreases |words|
  {
    WordCharwise(words[0]);
    if |words| > 1 {
      JoinCased(words[1..], cased[1..]);
      CharwiseAtSeparator(words[0], Strings.Join(words[1..], '_'));
      assert Strings.Join(words, '_') == words[0] + "_" + Strings.Join(words[1..], '_');
    }
  }

  /** The header name is the character-by-character casing of the key. */
  lemma HeaderNameCharwise(key: string)
    ensures HeaderName(key) == CharwiseName(key)
  {
    var words := Strings.Split(key, '_');
    var cased := seq(|words|, i requires 0 <= i < |words| => Capitalize(Strings.Lower(words[i])));
    JoinCased(words, cased);
  }

  /** Joining pieces without `c` with another separator gives a text
      without `c`. */
  lemma {:induction false} JoinAvoids(parts: seq<string>, sep: char, c: char)
    requires |parts| >= 1 && sep != c
    requires forall i :: 0 <= i < |parts| ==> c !in parts[i]
    ensures c !in Strings.Join(parts, sep)
    decreases |parts|
  {
    if |parts| > 1 {
      JoinAvoids(parts[1..], sep, c);
    }
  }

  const HttpPrefix := "HTTP_"

  /** The request headers among the server variables, in order. */
  function HttpHeaders(server: seq<(string, string)>): (hs: seq<(string, string)>)
    ensures |hs| <= |server|
  {
    if |server| == 0 then []
    else
      (if HttpPrefix <= server[0].0 then [(HeaderName(server[0].0[|HttpPrefix|..]), server[0].1)] else [])
      + HttpHeaders(server[1..])
  }

  /** `detectHeaders`: every `HTTP_*` server variable under its header name;
      when two keys give the same name, the later one wins. */
  function DetectHeaders(server: seq<(string, string)>): (headers: map<string, string>)
    ensures forall n :: n in headers <==> exists i :: 0 <= i < |HttpHeaders(server)| && HttpHeaders(server)[i].0 == n
    ensures forall i: nat :: i < |HttpHeaders(server)| && Assoc.LastAssignment(HttpHeaders(server), i) ==>
              HttpHeaders(server)[i].0 in headers && headers[HttpHeaders(server)[i].0] == HttpHeaders(server)[i].1
  {
    Assoc.CollectLastValues(HttpHeaders(server));
    Assoc.Collect(HttpHeaders(server))
  }


  /** Only `HTTP_*` variables become headers, each under its header name. */
  lemma {:induction false} HttpHeadersFromKeys(server: seq<(string, string)>)
    ensures forall j :: 0 <= j < |HttpHeaders(server)| ==>
              exists i :: 0 <= i < |server| && HttpPrefix <= server[i].0
                          && HttpHeaders(server)[j] == (HeaderName(server[i].0[|HttpPrefix|..]), server[i].1)
    decreases |server|
  {
    if |server| > 0 {
      HttpHeadersFromKeys(server[1..]);
      var hs := HttpHeaders(server);
      var head := if HttpPrefix <= server[0].0 then [(HeaderName(server[0].0[|HttpPrefix|..]), server[0].1)] else [];
      var tail := HttpHeaders(server[1..]);
      assert hs == head + tail;
      forall j | 0 <= j < |hs|
        ensures exists i :: 0 <= i < |server| && HttpPrefix <= server[i].0
                            && hs[j] == (HeaderName(server[i].0[|HttpPrefix|..]), server[i].1)
      {
        if j < |head| {
          assert hs[j] == head[0];
          assert HttpPrefix <= server[0].0 && hs[j] == (HeaderName(server[0].0[|HttpPrefix|..]), server[0].1);
        } else {
          assert hs[j] == tail[j - |head|];
          var i :| 0 <= i < |server[1..]| && HttpPrefix <= server[1..][i].0
                   && tail[j - |head|] == (HeaderName(server[1..][i].0[|HttpPrefix|..]), server[1..][i].1);
          assert server[1..][i] == server[i + 1];
        }
      }
    } else {
      assert |HttpHeaders(server)| == 0;
    }
  }

  /** A server variable whose key does not start with `HTTP_` contributes no
      header. */
  lemma SkipsOtherVariables(other: (string, string), server: seq<(string, string)>)
    requires !(HttpPrefix <= other.0)
    ensures HttpHeaders([other] + server) == HttpHeaders(server)
  {
    assert ([other] + server)[1..] == server;
  }

  /** A key without `_` is one word: lower-cased with an upper-case first
      letter. */
  lemma HeaderNameOfWord(w: string)
    requires '_' !in w
    ensures HeaderName(w) == Capitalize(Strings.Lower(w))
  {
    Strings.SplitNoSeparator(w, '_');
  }

  /** A key of two words: each cased, joined with `-`. */
  lemma HeaderNameOfTwoWords(a: string, b: string)
    requires '_' !in a && '_' !in b
    ensures HeaderName(a + "_" + b) == Capitalize(Strings.Lower(a)) + "-" + Capitalize(Strings.Lower(b))
  {
    Strings.SplitCons(a, b, '_');
    Strings.SplitNoSeparator(b, '_');
    var words := Strings.Split(a + "_" + b, '_');
    assert words == [a, b];
    var ca := Capitalize(Strings.Lower(a));
    var cb := Capitalize(Strings.Lower(b));
    var cased := seq(|words|, i requires 0 <= i < |words| => Capitalize(Strings.Lower(words[i])));
    assert cased == [ca, cb];
    assert Strings.Join(cased, '-') == ca + ['-'] + Strings.Join([cb], '-');
  }

  /** `HOST`, cased. */
  lemma CaseHost()
    ensures Capitalize(Strings.Lower("HOST")) == "Host"
  {
    assert Strings.Lower("HOST") == "host";
  }

  /** `USER`, cased. */
  lemma CaseUser()
    ensures Capitalize(Strings.Lower("USER")) == "User"
  {
    assert Strings.Lower("USER") == "user";
  }

  /** `AGENT`, cased. */
  lemma CaseAgent()
    ensures Capitalize(Strings.Lower("AGENT")) == "Agent"
  {
    assert Strings.Lower("AGENT") == "agent";
  }

  /** `CUSTOM`, cased. */
  lemma CaseCustom()
    ensures Capitalize(Strings.Lower("CUSTOM")) == "Custom"
  {
    assert Strings.Lower("CUSTOM") == "custom";
  }

  /** `HEADER`, cased. */
  lemma CaseHeader()
    ensures Capitalize(Strings.Lower("HEADER")) == "Header"
  {
    assert Strings.Lower("HEADER") == "header";
  }

  /** `AUTHORIZATION`, cased. */
  lemma CaseAuthorization()
    ensures Capitalize(Strings.Lower("AUTHORIZATION")) == "Authorization"
  {
    LowerAuthorization();
    assert Capitalize("authorization") == "Authorization";
  }

  lemma LowerAuthorization()
    ensures Strings.Lower("AUTHORIZATION") == "authorization"
  {
    var w := "AUTHORIZATION";
    assert forall i :: 0 <= i < |w| ==> Strings.LowerChar(w[i]) == "authorization"[i];
  }

  /** A server variable whose key starts with `HTTP_` contributes its header
      first. */
  lemma HttpHeadersPrefixed(key: string, value: string, server: seq<(string, string)>)
    ensures HttpHeaders([(HttpPrefix + key, value)] + server) == [(HeaderName(key), value)] + HttpHeaders(server)
  {
    var all := [(HttpPrefix + key, value)] + server;
    assert all[1..] == server;
    assert all[0].0[|HttpPrefix|..] == key;
  }

  lemma HostName()
    ensures HeaderName("HOST") == "Host"
  {
    HeaderNameOfWord("HOST");
    CaseHost();
  }

  lemma UserAgentName()
    ensures HeaderName("USER" + "_" + "AGENT") == "User" + "-" + "Agent"
  {
    HeaderNameOfTwoWords("USER", "AGENT");
    CaseUser();
    CaseAgent();
  }

  lemma CustomHeaderName()
    ensures HeaderName("CUSTOM" + "_" + "HEADER") == "Custom" + "-" + "Header"
  {
    HeaderNameOfTwoWords("CUSTOM", "HEADER");
    CaseCustom();
    CaseHeader();
  }

  lemma AuthorizationName()
    ensures HeaderName("AUTHORIZATION") == "Authorization"
  {
    HeaderNameOfWord("AUTHORIZATION");
    CaseAuthorization();
  }

  /** Four `HTTP_*` variables give four headers, in order. */
  lemma HttpHeadersOfFour(k0: string, v0: string, k1: string, v1: string, k2: string, v2: string, k3: string, v3: string)
    ensures HttpHeaders([(HttpPrefix + k0, v0), (HttpPrefix + k1, v1), (HttpPrefix + k2, v2), (HttpPrefix + k3, v3)])
            == [(HeaderName(k0), v0), (HeaderName(k1), v1), (HeaderName(k2), v2), (HeaderName(k3), v3)]
  {
    var p0, p1, p2, p3 := (HttpPrefix + k0, v0), (HttpPrefix + k1, v1), (HttpPrefix + k2, v2), (HttpPrefix + k3, v3);
    var h0, h1, h2, h3 := (HeaderName(k0), v0), (HeaderName(k1), v1), (HeaderName(k2), v2), (HeaderName(k3), v3);
    assert HttpHeaders([p3]) == [h3] by {
      HttpHeadersPrefixed(k3, v3, []);
      assert [p3] == [p3] + [];
      assert HttpHeaders([]) == [];
    }
    assert HttpHeaders([p2, p3]) == [h2, h3] by {
      HttpHeadersPrefixed(k2, v2, [p3]);
      assert [p2, p3] == [p2] + [p3];
    }
    assert HttpHeaders([p1, p2, p3]) == [h1, h2, h3] by {
      HttpHeadersPrefixed(k1, v1, [p2, p3]);
      assert [p1, p2, p3] == [p1] + [p2, p3];
    }
    HttpHeadersPrefixed(k0, v0, [p1, p2, p3]);
    assert [p0, p1, p2, p3] == [p0] + [p1, p2, p3];
  }

  /** Four assignments under four keys. */
  lemma CollectFour<K(!new), V>(a: (K, V), b: (K, V), c: (K, V), d: (K, V))
    ensures Assoc.Collect([a, b, c, d]) == map[a.0 := a.1][b.0 := b.1][c.0 := c.1][d.0 := d.1]
  {
    var hs := [a, b, c, d];
    Assoc.CollectSnoc([], a);
    assert [] + [a] == hs[..1];
    Assoc.CollectSnoc(hs[..1], b);
    assert hs[..1] + [b] == hs[..2];
    Assoc.CollectSnoc(hs[..2], c);
    assert hs[..2] + [c] == hs[..3];
    Assoc.CollectSnoc(hs[..3], d);
    assert hs[..3] + [d] == hs;
  }

  /** The header-detection test: the four `HTTP_*` variables become `Host`,
      `User-Agent`, `Custom-Header` and `Authorization`. */
  lemma DetectHeadersTestCase(host: string, agent: string, custom: string, auth: string)
    ensures DetectHeaders([(HttpPrefix + "HOST", host), (HttpPrefix + ("USER" + "_" + "AGENT"), agent),
                           (HttpPrefix + ("CUSTOM" + "_" + "HEADER"), custom), (HttpPrefix + "AUTHORIZATION", auth)])
            == map["Host" := host]["User" + "-" + "Agent" := agent]["Custom" + "-" + "Header" := custom]["Authorization" := auth]
  {
    HostName();
    UserAgentName();
    CustomHeaderName();
    AuthorizationName();
    HttpHeadersOfFour("HOST", host, "USER" + "_" + "AGENT", agent, "CUSTOM" + "_" + "HEADER", custom, "AUTHORIZATION", auth);
    CollectFour(("Host", host), ("User" + "-" + "Agent", agent), ("Custom" + "-" + "Header", custom), ("Authorization", auth));
  }

  // -----------------------------------------------------------------------
  // Mobile platforms
  // -----------------------------------------------------------------------

  /** The platforms the client tests name. */
  datatype Platform =
    | Windows | Mac | Linux | BlackBerry | Android | AndroidTablet | IPad | IPhone | IPod | UnknownPlatform

  /** The platforms detected as mobile. */
  predicate IsMobile(p: Platform)
  {
    p.BlackBerry? || p.Android? || p.AndroidTablet? || p.IPad? || p.IPhone? || p.IPod?
  }

  /** The platform and mobile columns of the user-agent table, row by row. */
  const UserAgentRows: seq<(Platform, bool)> :=
    [(Windows, false), (Windows, false), (Windows, false), (Windows, false), (Windows, false),
     (Windows, false), (Windows, false), (Windows, false), (Windows, false), (Windows, false),
     (Windows, false), (Windows, false), (Mac, false), (Windows, false), (Windows, false),
     (Linux, false), (Windows, false), (BlackBerry, true), (BlackBerry, true), (AndroidTablet, true),
     (Android, true), (AndroidTablet, true), (AndroidTablet, true), (AndroidTablet, true), (AndroidTablet, true),
     (IPad, true), (IPhone, true), (IPad, true), (IPod, true), (Windows, false),
     (Mac, false), (Windows, false), (Windows, false), (Windows, false), (Windows, false),
     (Mac, false), (Linux, false), (UnknownPlatform, false), (Windows, false), (Windows, false)]

  /** The mobile flag agrees with every row of the table, and the mobile
      platforms are exactly those with a mobile row. */
  lemma MobileMatchesTable()
    ensures forall i :: 0 <= i < |UserAgentRows| ==> IsMobile(UserAgentRows[i].0) == UserAgentRows[i].1
    ensures forall p: Platform :: IsMobile(p) <==>
              exists i :: 0 <= i < |UserAgentRows| && UserAgentRows[i].0 == p && UserAgentRows[i].1
  {
    MobileRowsAgree();
    MobilePlatformsHaveRows();
  }

  lemma MobileRowsAgree()
    ensures forall i :: 0 <= i < |UserAgentRows| ==> IsMobile(UserAgentRows[i].0) == UserAgentRows[i].1
  {
  }

  lemma MobilePlatformsHaveRows()
    ensures UserAgentRows[17].0 == BlackBerry && UserAgentRows[20].0 == Android
    ensures UserAgentRows[19].0 == AndroidTablet && UserAgentRows[25].0 == IPad
    ensures UserAgentRows[26].0 == IPhone && UserAgentRows[28].0 == IPod
  {
  }

  // -----------------------------------------------------------------------
  // The list tests
  // -----------------------------------------------------------------------

  /** `' gzip, deflate '` gives `[gzip, deflate]`. */
  lemma PaddedEncodings()
    ensures Encodings(" gzip, deflate ") == ["gzip", "deflate"]
  {
    assert " gzip, deflate " == Strings.Join(Pad(["gzip", "deflate"], [(" ", ""), (" ", " ")]), ',');
    ParsePaddedList(["gzip", "deflate"], [(" ", ""), (" ", " ")]);
  }

  /** `'goober , flasm'` gives `[goober, flasm]`: unknown tokens are kept. */
  lemma UnknownEncodings()
    ensures Encodings("goober , flasm") == ["goober", "flasm"]
  {
    assert "goober , flasm" == Strings.Join(Pad(["goober", "flasm"], [("", " "), (" ", "")]), ',');
    ParsePaddedList(["goober", "flasm"], [("", " "), (" ", "")]);
  }

  /** `' nl-NL, de-DE '` gives `[nl-NL, de-DE]`. */
  lemma PaddedLanguages()
    ensures Languages(" nl-NL, de-DE ") == ["nl-NL", "de-DE"]
  {
    assert " nl-NL, de-DE " == Strings.Join(Pad(["nl-NL", "de-DE"], [(" ", ""), (" ", " ")]), ',');
    ParsePaddedList(["nl-NL", "de-DE"], [(" ", ""), (" ", " ")]);
  }
}
