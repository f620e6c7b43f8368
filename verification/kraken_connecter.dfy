/**
 The pair-to-symbol translation of the `kraken-connecter` service: each
 configured trading pair is looked up in a fixed table and replaced by
 Kraken's name for it. Pairs missing from the table are dropped without
 any report.
 */
module KrakenConnecter {

  /** The lookup table from configured pair to Kraken symbol. */
  const MAPPINGS: map<string, string> := map["BTC/USDT" := "XXBTZUSD", "ETH/USDT" := "XETHZUSD"]

  /** Distinct pairs map to distinct Kraken symbols. */
  lemma MappingsInjective(p: string, q: string)
    requires p in MAPPINGS && q in MAPPINGS && p != q
    ensures MAPPINGS[p] != MAPPINGS[q]
  {
  }

  /** The symbols for `pairs`: the known pairs, in order, each replaced by its table entry. */
  function KrakenSymbols(pairs: seq<string>): (symbols: seq<string>)
    ensures |symbols| <= |pairs|
    decreases |pairs|
  {
    if pairs == [] then []
    else
      var last := pairs[|pairs| - 1];
      KrakenSymbols(pairs[..|pairs| - 1]) + (if last in MAPPINGS then [MAPPINGS[last]] else [])
  }

  /** The translation as the service runs it: one pass over `pairs`, appending each hit. */
  method MapToKrakenSymbols(pairs: seq<string>) returns (krakenSymbols: seq<string>)
    ensures krakenSymbols == KrakenSymbols(pairs)
  {
    krakenSymbols := [];
    for i := 0 to |pairs|
      invariant krakenSymbols == KrakenSymbols(pairs[..i])
    {
      var pair := pairs[i];
      assert pairs[..i + 1][..i] == pairs[..i];
      if pair in MAPPINGS {
        krakenSymbols := krakenSymbols + [MAPPINGS[pair]];
      }
    }
    assert pairs[..|pairs|] == pairs;
  }

  /** Translating a concatenation translates each part independently. */
  lemma {:induction false} KrakenSymbolsAppend(a: seq<string>, b: seq<string>)
    ensures KrakenSymbols(a + b) == KrakenSymbols(a) + KrakenSymbols(b)
    decreases |b|
  {
    if b == [] {
      assert a + b == a;
    } else {
      var n := |b| - 1;
      assert (a + b)[..|a + b| - 1] == a + b[..n];
      assert (a + b)[|a + b| - 1] == b[n];
      KrakenSymbolsAppend(a, b[..n]);
    }
  }

  /**
   The output is the order-preserving selection of the known pairs: `idx`
   lists, in increasing order, exactly the positions of pairs found in the
   table, and output element `j` is the table entry of the pair at `idx[j]`.
   */
  lemma {:induction false} KrakenSymbolsSelects(pairs: seq<string>) returns (idx: seq<nat>)
    ensures |idx| == |KrakenSymbols(pairs)|
    ensures forall j :: 0 <= j < |idx| ==>
      idx[j] < |pairs| && pairs[idx[j]] in MAPPINGS && KrakenSymbols(pairs)[j] == MAPPINGS[pairs[idx[j]]]
    ensures forall j, k :: 0 <= j < k < |idx| ==> idx[j] < idx[k]
    ensures forall i :: 0 <= i < |pairs| && pairs[i] in MAPPINGS ==> i in idx
    decreases |pairs|
  {
    if pairs == [] {
      idx := [];
    } else {
      var n := |pairs| - 1;
      var init := pairs[..n];
      var prev := KrakenSymbolsSelects(init);
      if pairs[n] in MAPPINGS {
        idx := prev + [n];
      } else {
        idx := prev;
      }
      forall i | 0 <= i < |pairs| && pairs[i] in MAPPINGS
        ensures i in idx
      {
        if i < n {
          assert init[i] == pairs[i];
        }
      }
    }
  }

  /** A symbol is produced exactly when some input pair maps to it. */
  lemma {:induction false} KrakenSymbolsMember(pairs: seq<string>, s: string)
    ensures s in KrakenSymbols(pairs) <==> exists i :: 0 <= i < |pairs| && pairs[i] in MAPPINGS && MAPPINGS[pairs[i]] == s
    decreases |pairs|
  {
    if pairs != [] {
      var n := |pairs| - 1;
      var init := pairs[..n];
      KrakenSymbolsMember(init, s);
      if exists i :: 0 <= i < |init| && init[i] in MAPPINGS && MAPPINGS[init[i]] == s {
        var i :| 0 <= i < |init| && init[i] in MAPPINGS && MAPPINGS[init[i]] == s;
        assert pairs[i] == init[i];
      }
      if exists i :: 0 <= i < |pairs| && pairs[i] in MAPPINGS && MAPPINGS[pairs[i]] == s {
        var i :| 0 <= i < |pairs| && pairs[i] in MAPPINGS && MAPPINGS[pairs[i]] == s;
        if i < n {
          assert init[i] == pairs[i];
        }
      }
    }
  }

  /**
   Each occurrence of a known pair yields one occurrence of its symbol:
   duplicates in the input give duplicates in the output.
   */
  lemma {:induction false} KrakenSymbolsCount(pairs: seq<string>, p: string)
    requires p in MAPPINGS
    ensures multiset(KrakenSymbols(pairs))[MAPPINGS[p]] == multiset(pairs)[p]
    decreases |pairs|
  {
    if pairs != [] {
      var n := |pairs| - 1;
      KrakenSymbolsCount(pairs[..n], p);
      assert pairs == pairs[..n] + [pairs[n]];
      if pairs[n] in MAPPINGS && pairs[n] != p {
        MappingsInjective(pairs[n], p);
      }
    }
  }

  /** Nothing is produced exactly when no pair is in the table: unknown pairs are not errors. */
  lemma KrakenSymbolsEmpty(pairs: seq<string>)
    ensures KrakenSymbols(pairs) == [] <==> forall i :: 0 <= i < |pairs| ==> pairs[i] !in MAPPINGS
  {
    var idx := KrakenSymbolsSelects(pairs);
    if KrakenSymbols(pairs) != [] {
      assert pairs[idx[0]] in MAPPINGS;
    }
  }

  /** Nothing is dropped exactly when every pair is in the table. */
  lemma KrakenSymbolsAllKnown(pairs: seq<string>)
    ensures |KrakenSymbols(pairs)| == |pairs| <==> forall i :: 0 <= i < |pairs| ==> pairs[i] in MAPPINGS
  {
    var idx := KrakenSymbolsSelects(pairs);
    if |idx| == |pairs| {
      IncreasingIsIdentity(idx, |pairs|);
      forall i | 0 <= i < |pairs| ensures pairs[i] in MAPPINGS {
        assert pairs[idx[i]] in MAPPINGS;
      }
    }
  }

  /** A strictly increasing sequence of `n` indices below `n` lists them all: `idx[j] == j`. */
  lemma {:induction false} IncreasingIsIdentity(idx: seq<nat>, n: nat)
    requires |idx| == n
    requires forall j :: 0 <= j < n ==> idx[j] < n
    requires forall j, k :: 0 <= j < k < n ==> idx[j] < idx[k]
    ensures forall j :: 0 <= j < n ==> idx[j] == j
  {
    forall j | 0 <= j < n ensures idx[j] == j {
      AtLeastIndex(idx, j);
      AtMostIndex(idx, n, j);
    }
  }

  lemma {:induction false} AtLeastIndex(idx: seq<nat>, j: nat)
    requires j < |idx|
    requires forall a, b :: 0 <= a < b < |idx| ==> idx[a] < idx[b]
    ensures idx[j] >= j
    decreases j
  {
    if j > 0 {
      AtLeastIndex(idx, j - 1);
    }
  }

  lemma {:induction false} AtMostIndex(idx: seq<nat>, n: nat, j: nat)
    requires |idx| == n && j < n
    requires forall a :: 0 <= a < n ==> idx[a] < n
    requires forall a, b :: 0 <= a < b < n ==> idx[a] < idx[b]
    ensures idx[j] <= j
    decreases n - j
  {
    if j < n - 1 {
      AtMostIndex(idx, n, j + 1);
    }
  }

  /** The table's own entries and an unknown pair. */
  lemma KrakenSymbolsExamples()
    ensures KrakenSymbols(["BTC/USDT"]) == ["XXBTZUSD"]
    ensures KrakenSymbols(["ETH/USDT"]) == ["XETHZUSD"]
    ensures KrakenSymbols(["BTC/USD"]) == []
    ensures KrakenSymbols(["ETH/USDT", "BTC/USDT", "ETH/USDT"]) == ["XETHZUSD", "XXBTZUSD", "XETHZUSD"]
  {
    var three := ["ETH/USDT", "BTC/USDT", "ETH/USDT"];
    assert three[..2][..1] == ["ETH/USDT"];
    assert three[..2] == ["ETH/USDT", "BTC/USDT"];
  }
}
