/** The command-line parameter string parser: the text is cut at every single
    space; each piece is cut at `=`, the text before the first `=` is the
    name and the text between the first and the second `=`, stripped of
    quotes, is the value; a piece without `=` is a flag (`true`). A repeated
    name keeps its last value. */
module CliParameter {
  import opened Wrappers
  import Strings
  import Assoc

  /** A parsed value: a string, or PHP `true` for a bare flag. */
  datatype Value = Text(s: string) | Flag

  /** A parameter object: the parsed name/value array. */
  datatype Parameter = Parameter(arguments: map<string, Value>)

  /** The characters `trim` strips from a value: both quote characters. */
  const Quotes: set<char> := {'\'', '"'}

  /** One space-separated piece read as a name and a value. */
  function Token(part: string): (t: (string, Value))
    ensures '=' !in t.0
    ensures t.1.Flag? <==> '=' !in part
  {
    var sub := Strings.Split(part, '=');
    assert '=' in part ==> Strings.Count(part, '=') > 0 by {
      if '=' in part { CountPositive(part, '='); }
    }
    (sub[0], if |sub| >= 2 then Text(Strings.Trim(sub[1], Quotes)) else Flag)
  }

  /** A character that occurs is counted. */
  lemma {:induction false} CountPositive(s: string, c: char)
    requires c in s
    ensures Strings.Count(s, c) > 0
    decreases |s|
  {
    if s[0] != c {
      assert c in s[1..] by {
        var i :| 0 <= i < |s| && s[i] == c;
        assert s[1..][i - 1] == c;
      }
      CountPositive(s[1..], c);
    }
  }

  /** The pieces of the text, read as tokens, in order. */
  function Tokens(s: string): (ts: seq<(string, Value)>)
    ensures |ts| == |Strings.Split(s, ' ')|
    ensures forall i :: 0 <= i < |ts| ==> ts[i] == Token(Strings.Split(s, ' ')[i])
  {
    var parts := Strings.Split(s, ' ');
    seq(|parts|, i requires 0 <= i < |parts| => Token(parts[i]))
  }

  /** `fromString`: assigns every token in order to an empty array. Every
      token's name is present, only those names are, and each name holds the
      value of its last token. */
  method FromString(s: string) returns (args: map<string, Value>)
    ensures args == Assoc.Collect(Tokens(s))
    ensures forall k :: k in args <==> exists i :: 0 <= i < |Tokens(s)| && Tokens(s)[i].0 == k
  {
    var ts := Tokens(s);
    args := map[];
    var i := 0;
    while i < |ts|
      invariant 0 <= i <= |ts|
      invariant args == Assoc.Collect(ts[..i])
    {
      Assoc.CollectPrefix(ts, i);
      args := args[ts[i].0 := ts[i].1];
      i := i + 1;
    }
    assert ts[..i] == ts;
  }

  /** The parameter object built from a string (the constructor). */
  function New(s: string): (p: Parameter)
    ensures forall k :: k in p.arguments <==> exists i :: 0 <= i < |Tokens(s)| && Tokens(s)[i].0 == k
  {
    Parameter(Assoc.Collect(Tokens(s)))
  }

  /** `has`: the name was parsed. */
  predicate Has(p: Parameter, name: string)
  {
    name in p.arguments
  }

  /** `getParameter`: the parsed value, or PHP `false` (`None`) when the name
      was not parsed. */
  function GetParameter(p: Parameter, name: string): (r: Option<Value>)
    ensures r.Some? <==> Has(p, name)
    ensures Has(p, name) ==> r == Some(p.arguments[name])
  {
    if Has(p, name) then Some(p.arguments[name]) else None
  }

  // -----------------------------------------------------------------------
  // Properties of parsing
  // -----------------------------------------------------------------------

  /** A piece without `=` is a flag named by the whole piece. */
  lemma TokenFlag(name: string)
    requires '=' !in name
    ensures Token(name) == (name, Flag)
  {
    Strings.SplitNoSeparator(name, '=');
  }

  /** `name=value`: the value is stripped of quotes at both ends. */
  lemma TokenValue(name: string, value: string)
    requires '=' !in name && '=' !in value
    ensures Token(name + "=" + value) == (name, Text(Strings.Trim(value, Quotes)))
  {
    Strings.SplitCons(name, value, '=');
    Strings.SplitNoSeparator(value, '=');
  }

  /** `name=value=rest`: only the text between the first and the second `=`
      is kept. */
  lemma TokenValueIgnoresRest(name: string, value: string, rest: string)
    requires '=' !in name && '=' !in value
    ensures Token(name + "=" + value + "=" + rest) == (name, Text(Strings.Trim(value, Quotes)))
  {
    assert name + "=" + value + "=" + rest == name + ['='] + (value + ['='] + rest);
    Strings.SplitCons(name, value + ['='] + rest, '=');
    Strings.SplitCons(value, rest, '=');
  }

  /** A parsed name is reported by `has`, and `getParameter` returns the value
      of its last token; a name no token carries is absent and reads as
      `false`. */
  lemma GetParameterOfParsed(s: string, name: string)
    ensures Has(New(s), name) <==> exists i :: 0 <= i < |Tokens(s)| && Tokens(s)[i].0 == name
    ensures forall i :: 0 <= i < |Tokens(s)| && Tokens(s)[i].0 == name
                        && (forall j :: i < j < |Tokens(s)| ==> Tokens(s)[j].0 != name) ==>
              GetParameter(New(s), name) == Some(Tokens(s)[i].1)
  {
    var ts := Tokens(s);
    forall i | 0 <= i < |ts| && ts[i].0 == name && (forall j :: i < j < |ts| ==> ts[j].0 != name)
      ensures GetParameter(New(s), name) == Some(ts[i].1)
    {
      Assoc.LastWins(ts, i);
    }
  }

  /** The empty string is one empty piece: the empty name set to `true`. */
  lemma EmptyString()
    ensures New("") == Parameter(map["" := Flag])
  {
    TokenFlag("");
  }

  /** A text without spaces is a single token. */
  lemma NewSingle(part: string)
    requires ' ' !in part
    ensures New(part) == Parameter(map[Token(part).0 := Token(part).1])
  {
    Strings.SplitNoSeparator(part, ' ');
    assert Tokens(part) == [] + [Token(part)];
    Assoc.CollectSnoc([], Token(part));
  }

  /** Two space-separated pieces are two tokens, the second assigned last. */
  lemma NewPair(first: string, second: string)
    requires ' ' !in first && ' ' !in second
    ensures New(first + " " + second).arguments ==
            map[Token(first).0 := Token(first).1][Token(second).0 := Token(second).1]
  {
    Strings.SplitCons(first, second, ' ');
    Strings.SplitNoSeparator(second, ' ');
    var ts := Tokens(first + " " + second);
    assert ts == [] + [Token(first)] + [Token(second)];
    Assoc.CollectSnoc([], Token(first));
    Assoc.CollectSnoc([Token(first)], Token(second));
  }

  /** `a=b=c` sets `a` to `b`: the text after the second `=` is dropped. */
  lemma ChainedEquals(a: string, b: string, c: string)
    requires '=' !in a && '=' !in b
    requires ' ' !in a + "=" + b + "=" + c
    requires |b| > 0 ==> b[0] !in Quotes && b[|b| - 1] !in Quotes
    ensures New(a + "=" + b + "=" + c) == Parameter(map[a := Text(b)])
  {
    NewSingle(a + "=" + b + "=" + c);
    TokenValueIgnoresRest(a, b, c);
    Strings.TrimKeepsTrimmed(b, Quotes);
  }

  /** When a name is given twice, the second value is kept. */
  lemma LaterValueWins(name: string, first: string, second: string)
    requires '=' !in name && '=' !in first && '=' !in second
    requires ' ' !in name + "=" + first && ' ' !in name + "=" + second
    ensures New((name + "=" + first) + " " + (name + "=" + second)) ==
            Parameter(map[name := Text(Strings.Trim(second, Quotes))])
  {
    NewPair(name + "=" + first, name + "=" + second);
    TokenValue(name, first);
    TokenValue(name, second);
  }

  /** Two spaces in a row leave an empty piece: the empty name is a flag,
      unless a later token names it. */
  lemma DoubleSpaceIsEmptyFlag(first: string, second: string)
    requires ' ' !in first && ' ' !in second && '=' !in second
    ensures "" in New(first + "  " + second).arguments
    ensures New(first + "  " + second).arguments[""] == Flag
  {
    var s := first + "  " + second;
    assert s == first + [' '] + ("" + [' '] + second);
    Strings.SplitCons(first, "" + [' '] + second, ' ');
    Strings.SplitCons("", second, ' ');
    Strings.SplitNoSeparator(second, ' ');
    var ts := Tokens(s);
    assert |ts| == 3;
    TokenFlag("");
    TokenFlag(second);
    if second == "" {
      Assoc.LastWins(ts, 2);
    } else {
      Assoc.LastWins(ts, 1);
    }
  }
}
