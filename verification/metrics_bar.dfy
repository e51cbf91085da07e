/**
 * The pure computations of the metrics bar: splitting the trading symbol
 * into its base and quote asset, and the display-precision defaults.
 */
module MetricsBar {
  import opened Wrappers

  /** Index of the first occurrence of `c` in `s`. */
  function IndexOf(s: string, c: char): (i: nat)
    requires c in s
    ensures i < |s| && s[i] == c && c !in s[..i]
  {
    if s[0] == c then 0
    else
      assert s == [s[0]] + s[1..];
      var j := IndexOf(s[1..], c);
      assert s[..j + 1] == [s[0]] + s[1..][..j];
      j + 1
  }

  /** Glues `parts` back together with `sep` between neighbours (`Array.prototype.join`). */
  function Join(parts: seq<string>, sep: char): string
    requires |parts| >= 1
  {
    if |parts| == 1 then parts[0] else parts[0] + [sep] + Join(parts[1..], sep)
  }

  /** No part contains the separator. */
  predicate SeparatorFree(parts: seq<string>, sep: char)
  {
    forall k | 0 <= k < |parts| :: sep !in parts[k]
  }

  /**
   * `String.prototype.split` with a one-character separator: the pieces
   * between consecutive occurrences of `sep`. A string without `sep`
   * (the empty string included) gives a single piece.
   */
  function Split(s: string, sep: char): (parts: seq<string>)
    ensures |parts| >= 1
    ensures SeparatorFree(parts, sep)
    ensures Join(parts, sep) == s
    decreases |s|
  {
    if sep !in s then [s]
    else
      var i := IndexOf(s, sep);
      var rest := Split(s[i + 1..], sep);
      assert s == s[..i] + [sep] + s[i + 1..];
      [s[..i]] + rest
  }

  /** Splitting is the inverse of joining separator-free parts. */
  lemma {:induction false} SplitJoin(parts: seq<string>, sep: char)
    requires |parts| >= 1 && SeparatorFree(parts, sep)
    ensures Split(Join(parts, sep), sep) == parts
    decreases |parts|
  {
    var s := Join(parts, sep);
    if |parts| == 1 {
      assert sep !in parts[0];
    } else {
      var tail := Join(parts[1..], sep);
      assert s == parts[0] + [sep] + tail;
      assert s[|parts[0]|] == sep;
      assert s[..|parts[0]|] == parts[0];
      assert sep !in s[..|parts[0]|];
      var i := IndexOf(s, sep);
      assert i == |parts[0]|;
      assert s[i + 1..] == tail;
      SplitJoin(parts[1..], sep);
    }
  }

  /** The separator the symbol is split on: `/` when present, else `_`. */
  function SeparatorOf(symbol: string): (sep: char)
    ensures sep == '/' <==> '/' in symbol
    ensures sep != '/' ==> sep == '_'
  {
    if '/' in symbol then '/' else '_'
  }

  /** `f` is the text of `s` before its first `sep`, or all of `s` when there is none. */
  ghost predicate FirstField(s: string, sep: char, f: string)
  {
    f <= s && sep !in f && (|f| == |s| || s[|f|] == sep)
  }

  /** `f` is the text of `s` between its first and second `sep` (or the end). */
  ghost predicate SecondField(s: string, sep: char, f: string)
  {
    exists i :: 0 <= i < |s| && s[i] == sep && sep !in s[..i] && FirstField(s[i + 1..], sep, f)
  }

  lemma FirstFieldUnique(s: string, sep: char, f: string, g: string)
    requires FirstField(s, sep, f) && FirstField(s, sep, g)
    ensures f == g
  {
  }

  /** The first piece of a split is the first field, the second the second field. */
  lemma SplitFields(s: string, sep: char)
    ensures FirstField(s, sep, Split(s, sep)[0])
    ensures |Split(s, sep)| >= 2 ==> SecondField(s, sep, Split(s, sep)[1])
    ensures |Split(s, sep)| >= 2 <==> sep in s
  {
  }

  /** `symbol.includes('/') ? symbol.split('/') : symbol.split('_')` */
  function SymbolParts(symbol: string): (parts: seq<string>)
    ensures |parts| >= 1
    ensures '/' in symbol ==> SeparatorFree(parts, '/') && Join(parts, '/') == symbol
    ensures '/' !in symbol ==> SeparatorFree(parts, '_') && Join(parts, '_') == symbol
  {
    Split(symbol, SeparatorOf(symbol))
  }

  /**
   * `symbolParts[0] || symbol`: the text before the first separator, or
   * the whole symbol when that text is empty.
   */
  function BaseAsset(symbol: string): (base: string)
    ensures var sep := SeparatorOf(symbol);
      (FirstField(symbol, sep, base) && base != "") || (base == symbol && FirstField(symbol, sep, ""))
    ensures base == "" <==> symbol == ""
  {
    SplitFields(symbol, SeparatorOf(symbol));
    var parts := SymbolParts(symbol);
    if parts[0] != "" then parts[0] else symbol
  }

  /**
   * `symbolParts[1] || 'USD'`: the text between the first and second
   * separator, or `"USD"` when there is no separator or that text is empty.
   */
  function QuoteAsset(symbol: string): (quote: string)
    ensures quote != ""
    ensures quote == "USD" || SecondField(symbol, SeparatorOf(symbol), quote)
    ensures forall f | SecondField(symbol, SeparatorOf(symbol), f) && f != "" :: quote == f
  {
    var sep := SeparatorOf(symbol);
    SplitFields(symbol, sep);
    var parts := SymbolParts(symbol);
    forall f | SecondField(symbol, sep, f) && f != ""
      ensures (if |parts| >= 2 && parts[1] != "" then parts[1] else "USD") == f
    {
      SecondFieldUnique(symbol, sep, f, parts);
    }
    if |parts| >= 2 && parts[1] != "" then parts[1] else "USD"
  }

  lemma SecondFieldUnique(s: string, sep: char, f: string, parts: seq<string>)
    requires parts == Split(s, sep) && SecondField(s, sep, f)
    ensures |parts| >= 2 && parts[1] == f
  {
  }

  /** A symbol with neither separator is its own base, quoted in `"USD"`. */
  lemma NoSeparatorSymbol(symbol: string)
    requires '/' !in symbol && '_' !in symbol
    ensures BaseAsset(symbol) == symbol
    ensures QuoteAsset(symbol) == "USD"
  {
  }

  /**
   * A symbol written `base`, separator, `quote` parses back into that base
   * and quote, provided neither part is empty or holds the separator, and,
   * with `_`, neither holds a `/` (which would take precedence).
   */
  lemma PairRoundTrip(base: string, quote: string, sep: char)
    requires base != "" && quote != "" && sep !in base && sep !in quote
    requires sep == '/' || (sep == '_' && '/' !in base && '/' !in quote)
    ensures BaseAsset(base + [sep] + quote) == base
    ensures QuoteAsset(base + [sep] + quote) == quote
  {
    var symbol := base + [sep] + quote;
    assert Join([base, quote], sep) == symbol;
    assert symbol[|base|] == sep;
    assert SeparatorOf(symbol) == sep;
    SplitJoin([base, quote], sep);
  }

  /** `"LIT/USDC"` gives base `"LIT"` and quote `"USDC"`. */
  lemma SlashedSymbol(symbol: string)
    requires symbol == "LIT/USDC"
    ensures BaseAsset(symbol) == "LIT" && QuoteAsset(symbol) == "USDC"
  {
    assert symbol == "LIT" + ['/'] + "USDC";
    PairRoundTrip("LIT", "USDC", '/');
  }

  /** `"LIT_USDC"` parses like `"LIT/USDC"`. */
  lemma UnderscoredSymbol(symbol: string)
    requires symbol == "LIT_USDC"
    ensures BaseAsset(symbol) == "LIT" && QuoteAsset(symbol) == "USDC"
  {
    assert symbol == "LIT" + ['_'] + "USDC";
    PairRoundTrip("LIT", "USDC", '_');
  }

  /** `/` takes precedence over `_`: `"A_B/C"` gives base `"A_B"` and quote `"C"`. */
  lemma SlashTakesPrecedence(symbol: string)
    requires symbol == "A_B/C"
    ensures BaseAsset(symbol) == "A_B" && QuoteAsset(symbol) == "C"
  {
    assert symbol == "A_B" + ['/'] + "C";
    PairRoundTrip("A_B", "C", '/');
  }

  /** The empty symbol has an empty base and is quoted in `"USD"`. */
  lemma EmptySymbol(symbol: string)
    requires symbol == ""
    ensures BaseAsset(symbol) == "" && QuoteAsset(symbol) == "USD"
  {
    NoSeparatorSymbol(symbol);
  }

  /** The display-precision hints of a configuration; either may be missing. */
  datatype DisplayConfig = DisplayConfig(sz_decimals: Option<int>, px_decimals: Option<int>)

  /** `config?.sz_decimals ?? 4` */
  function SizeDecimals(config: Option<DisplayConfig>): (decimals: int)
    ensures config.None? || config.value.sz_decimals.None? ==> decimals == 4
    ensures config.Some? && config.value.sz_decimals.Some? ==> decimals == config.value.sz_decimals.value
  {
    if config.Some? then config.value.sz_decimals.GetOr(4) else 4
  }

  /** `config?.px_decimals ?? 2` */
  function PriceDecimals(config: Option<DisplayConfig>): (decimals: int)
    ensures config.None? || config.value.px_decimals.None? ==> decimals == 2
    ensures config.Some? && config.value.px_decimals.Some? ==> decimals == config.value.px_decimals.value
  {
    if config.Some? then config.value.px_decimals.GetOr(2) else 2
  }
}
