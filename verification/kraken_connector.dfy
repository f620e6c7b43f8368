/**
 The pair formatting of the `kraken-connector` service: the configured pair
 list is split at every comma, and every slash is removed from each piece,
 so "BTC/USD,ETH/USD" becomes ["BTCUSD", "ETHUSD"]. `Split` models Go's
 `strings.Split` with the one-character separator ",", `StripSlashes` models
 `strings.ReplaceAll(piece, "/", "")`.
 */
module KrakenConnector {

  const COMMA: char := ','
  const SLASH: char := '/'

  /** The pieces of `s` between commas, as `strings.Split(s, ",")` returns them; never none. */
  function Split(s: string): (pieces: seq<string>)
    ensures |pieces| >= 1
    decreases |s|
  {
    if s == [] then [""]
    else
      var rest := Split(s[1..]);
      if s[0] == COMMA then [""] + rest
      else [[s[0]] + rest[0]] + rest[1..]
  }

  /**
   There is one more piece than there are commas (so "" gives [""]), and no
   piece contains a comma.
   */
  lemma {:induction false} SplitPieces(s: string)
    ensures |Split(s)| == multiset(s)[COMMA] + 1
    ensures forall i :: 0 <= i < |Split(s)| ==> COMMA !in Split(s)[i]
    decreases |s|
  {
    if s != [] {
      assert s == [s[0]] + s[1..];
      SplitPieces(s[1..]);
      var rest := Split(s[1..]);
      if s[0] != COMMA {
        forall i | 1 <= i < |Split(s)| ensures COMMA !in Split(s)[i] {
          assert Split(s)[i] == rest[i];
        }
      }
    }
  }

  /** The pieces glued back together with a comma between neighbours. */
  function Join(pieces: seq<string>): (s: string)
    requires |pieces| >= 1
    ensures |s| >= |pieces| - 1
    decreases |pieces|
  {
    if |pieces| == 1 then pieces[0] else pieces[0] + [COMMA] + Join(pieces[1..])
  }

  /** Splitting loses nothing: joining the pieces gives back the input. */
  lemma {:induction false} JoinSplit(s: string)
    ensures Join(Split(s)) == s
    decreases |s|
  {
    if s != [] {
      var rest := Split(s[1..]);
      JoinSplit(s[1..]);
      if s[0] != COMMA && |rest| > 1 {
        assert Split(s)[1..] == rest[1..];
      }
    }
  }

  /** Splitting a string that starts with a comma gives an empty first piece. */
  lemma SplitComma(t: string)
    ensures Split([COMMA] + t) == [""] + Split(t)
  {
    assert ([COMMA] + t)[1..] == t;
  }

  /** A comma-free prefix extends the first piece and leaves the others alone. */
  lemma {:induction false} SplitPrefix(p: string, t: string)
    requires COMMA !in p
    ensures Split(p + t) == [p + Split(t)[0]] + Split(t)[1..]
    decreases |p|
  {
    if p != [] {
      assert (p + t)[1..] == p[1..] + t;
      assert (p + t)[0] == p[0];
      SplitPrefix(p[1..], t);
      assert [p[0]] + (p[1..] + Split(t)[0]) == p + Split(t)[0];
    } else {
      assert p + t == t;
      assert p + Split(t)[0] == Split(t)[0];
      assert Split(t) == [Split(t)[0]] + Split(t)[1..];
    }
  }

  /** Joining comma-free pieces and splitting again gives back the pieces. */
  lemma {:induction false} SplitJoin(pieces: seq<string>)
    requires |pieces| >= 1
    requires forall i :: 0 <= i < |pieces| ==> COMMA !in pieces[i]
    ensures Split(Join(pieces)) == pieces
    decreases |pieces|
  {
    if |pieces| == 1 {
      SplitPrefix(pieces[0], "");
      assert pieces[0] + "" == pieces[0];
    } else {
      var tail := Join(pieces[1..]);
      assert Split(tail) == pieces[1..] by {
        SplitJoin(pieces[1..]);
      }
      assert Split([COMMA] + tail) == [""] + pieces[1..] by {
        SplitComma(tail);
      }
      assert Join(pieces) == pieces[0] + ([COMMA] + tail);
      SplitPrefix(pieces[0], [COMMA] + tail);
      assert pieces[0] + "" == pieces[0];
      assert pieces == [pieces[0]] + pieces[1..];
    }
  }

  /** `s` with every slash removed, as `strings.ReplaceAll(s, "/", "")` returns it. */
  function StripSlashes(s: string): (r: string)
    ensures SLASH !in r
    decreases |s|
  {
    if s == [] then []
    else (if s[0] == SLASH then [] else [s[0]]) + StripSlashes(s[1..])
  }

  /**
   Nothing but slashes is removed: every other character keeps its number of
   occurrences, and the result is shorter by the number of slashes.
   */
  lemma {:induction false} StripSlashesKeeps(s: string, c: char)
    ensures c != SLASH ==> multiset(StripSlashes(s))[c] == multiset(s)[c]
    ensures |StripSlashes(s)| == |s| - multiset(s)[SLASH]
    decreases |s|
  {
    if s != [] {
      StripSlashesKeeps(s[1..], c);
      assert s == [s[0]] + s[1..];
    }
  }

  /** Removal works piece by piece, so the order of the kept characters is the input's. */
  lemma {:induction false} StripSlashesAppend(a: string, b: string)
    ensures StripSlashes(a + b) == StripSlashes(a) + StripSlashes(b)
    decreases |a|
  {
    if a == [] {
      assert a + b == b;
    } else {
      assert (a + b)[1..] == a[1..] + b;
      assert (a + b)[0] == a[0];
      StripSlashesAppend(a[1..], b);
    }
  }

  /** A string is left unchanged exactly when it holds no slash. */
  lemma {:induction false} StripSlashesFixed(s: string)
    ensures StripSlashes(s) == s <==> SLASH !in s
    decreases |s|
  {
    if s != [] && SLASH !in s {
      StripSlashesFixed(s[1..]);
      assert s == [s[0]] + s[1..];
    }
  }

  /** Removing slashes twice is the same as removing them once. */
  lemma StripSlashesIdempotent(s: string)
    ensures StripSlashes(StripSlashes(s)) == StripSlashes(s)
  {
    StripSlashesFixed(StripSlashes(s));
  }

  /** The formatted symbol list, one entry per piece of the pair list. */
  function FormattedSymbols(pairs: string): (symbols: seq<string>)
  {
    var rawPairs := Split(pairs);
    seq(|rawPairs|, i requires 0 <= i < |rawPairs| => StripSlashes(rawPairs[i]))
  }

  /**
   The formatting as the service runs it: a buffer with one slot per piece,
   filled in by index.
   */
  method FormatSymbols(pairs: string) returns (formatted: seq<string>)
    ensures formatted == FormattedSymbols(pairs)
  {
    var rawPairs := Split(pairs);
    var buffer := new string[|rawPairs|];
    for i := 0 to |rawPairs|
      invariant forall j :: 0 <= j < i ==> buffer[j] == StripSlashes(rawPairs[j])
    {
      buffer[i] := StripSlashes(rawPairs[i]);
    }
    formatted := buffer[..];
    assert forall j :: 0 <= j < |rawPairs| ==> formatted[j] == FormattedSymbols(pairs)[j];
  }

  /**
   What the formatted list looks like: one symbol per comma plus one, symbol
   `i` is piece `i` of the input without its slashes, and no symbol holds a
   slash or a comma.
   */
  lemma FormattedSymbolsShape(pairs: string)
    ensures |FormattedSymbols(pairs)| == multiset(pairs)[COMMA] + 1
    ensures forall i :: 0 <= i < |FormattedSymbols(pairs)| ==>
      FormattedSymbols(pairs)[i] == StripSlashes(Split(pairs)[i])
    ensures forall i :: 0 <= i < |FormattedSymbols(pairs)| ==>
      SLASH !in FormattedSymbols(pairs)[i] && COMMA !in FormattedSymbols(pairs)[i]
  {
    var rawPairs := Split(pairs);
    SplitPieces(pairs);
    forall i | 0 <= i < |rawPairs| ensures COMMA !in StripSlashes(rawPairs[i]) {
      StripSlashesKeeps(rawPairs[i], COMMA);
      assert multiset(rawPairs[i])[COMMA] == 0;
    }
  }

  /** The formatted symbols are already formatted: formatting them again changes nothing. */
  lemma FormattedSymbolsStable(pairs: string, i: nat)
    requires i < |FormattedSymbols(pairs)|
    ensures StripSlashes(FormattedSymbols(pairs)[i]) == FormattedSymbols(pairs)[i]
  {
    StripSlashesIdempotent(Split(pairs)[i]);
  }

  /** Removing the slash from "base/quote" when neither part holds one. */
  lemma SlashSeparated(base: string, quote: string)
    requires SLASH !in base && SLASH !in quote
    ensures StripSlashes(base + [SLASH] + quote) == base + quote
  {
    var left := base + [SLASH];
    assert StripSlashes([SLASH]) == [] by {
      assert [SLASH][1..] == [];
    }
    assert StripSlashes(left) == base by {
      StripSlashesAppend(base, [SLASH]);
      StripSlashesFixed(base);
      assert base + [] == base;
    }
    assert StripSlashes(quote) == quote by {
      StripSlashesFixed(quote);
    }
    StripSlashesAppend(left, quote);
  }

  /** Two comma-free pieces joined by one comma split back into those two. */
  lemma SplitTwo(first: string, second: string)
    requires COMMA !in first && COMMA !in second
    ensures Split(first + [COMMA] + second) == [first, second]
  {
    var pieces := [first, second];
    assert Join(pieces[1..]) == second;
    SplitJoin(pieces);
  }

  /** Two slash-separated pairs, comma-separated, become the two pairs without their slashes. */
  lemma FormattedTwoPairs(base1: string, quote1: string, base2: string, quote2: string)
    requires SLASH !in base1 && SLASH !in quote1 && SLASH !in base2 && SLASH !in quote2
    requires COMMA !in base1 && COMMA !in quote1 && COMMA !in base2 && COMMA !in quote2
    ensures FormattedSymbols(base1 + [SLASH] + quote1 + [COMMA] + base2 + [SLASH] + quote2)
         == [base1 + quote1, base2 + quote2]
  {
    var first := base1 + [SLASH] + quote1;
    var second := base2 + [SLASH] + quote2;
    var pairs := base1 + [SLASH] + quote1 + [COMMA] + base2 + [SLASH] + quote2;
    assert pairs == first + [COMMA] + second;
    SplitTwo(first, second);
    SlashSeparated(base1, quote1);
    SlashSeparated(base2, quote2);
    var formatted := FormattedSymbols(pairs);
    assert |formatted| == 2;
    assert formatted[0] == base1 + quote1;
    assert formatted[1] == base2 + quote2;
  }

  /** The service's example pair list, split. */
  lemma SplitExample()
    ensures Split("BTC/USD,ETH/USD") == ["BTC/USD", "ETH/USD"]
  {
    SplitTwo("BTC/USD", "ETH/USD");
    assert "BTC/USD" + [COMMA] + "ETH/USD" == "BTC/USD,ETH/USD";
  }

  /** The two pairs of the service's example, stripped. */
  lemma StripSlashesExamples()
    ensures StripSlashes("BTC/USD") == "BTCUSD"
    ensures StripSlashes("ETH/USD") == "ETHUSD"
  {
    SlashSeparated("BTC", "USD");
    assert "BTC" + [SLASH] + "USD" == "BTC/USD" && "BTC" + "USD" == "BTCUSD";
    SlashSeparated("ETH", "USD");
    assert "ETH" + [SLASH] + "USD" == "ETH/USD" && "ETH" + "USD" == "ETHUSD";
  }

  /** The service's own example. */
  lemma FormattedSymbolsExample()
    ensures FormattedSymbols("BTC/USD,ETH/USD") == ["BTCUSD", "ETHUSD"]
  {
    SplitExample();
    StripSlashesExamples();
    var formatted := FormattedSymbols("BTC/USD,ETH/USD");
    assert |formatted| == 2;
    assert formatted[0] == "BTCUSD";
    assert formatted[1] == "ETHUSD";
  }
}
