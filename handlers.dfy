/** The three chat handlers: `.price`, `.top` and `!SYM`.

    Each handler builds the URL of one HTTP request, reads the parsed JSON answer
    and replies with a text. Here the URL is a result, the parsed answer is a
    parameter, and the reply is a `Reply` carrying the text and the channel. */
module Handlers {
  import opened Values
  import opened Strings
  import opened Commas
  import opened Percent

  /** What a handler sends back: the text, and whether it goes by private message. */
  datatype Reply = Reply(text: string, isPrivate: bool)

  // ---------------------------------------------------------------------
  // The reply channel

  /** `response.message.body.include?('-p')`: the reply is private exactly when a '-'
      immediately followed by a 'p' occurs anywhere in the message. */
  function WantsPrivate(body: string): (b: bool)
    ensures b <==> exists i :: 0 <= i < |body| - 1 && body[i] == '-' && body[i + 1] == 'p'
  {
    IncludesDashP(body);
    Includes(body, "-p")
  }

  lemma IncludesDashP(body: string)
    ensures Includes(body, "-p") <==> exists i :: 0 <= i < |body| - 1 && body[i] == '-' && body[i + 1] == 'p'
  {
    if Includes(body, "-p") {
      var i :| OccursAt(body, "-p", i);
      DashPAt(body, i);
    }
    if i :| 0 <= i < |body| - 1 && body[i] == '-' && body[i + 1] == 'p' {
      DashPAt(body, i);
    }
  }

  /** "-p" occurs at `i` exactly when a '-' at `i` is followed by a 'p'. */
  lemma DashPAt(s: string, i: int)
    ensures OccursAt(s, "-p", i) <==> 0 <= i < |s| - 1 && s[i] == '-' && s[i + 1] == 'p'
  {
    if 0 <= i < |s| - 1 {
      assert s[i..i + 2] == [s[i], s[i + 1]];
    }
  }

  // ---------------------------------------------------------------------
  // The coin symbol of `!SYM`

  /** A match of `/![A-Z]{1,5}/` starts at index `i` of `s`. */
  predicate BangAt(s: string, i: int) {
    0 <= i < |s| - 1 && s[i] == '!' && IsUpper(s[i + 1])
  }

  /** The leftmost start of a match at or after index `k`. */
  function FirstBangFrom(s: string, k: nat): (r: Option<nat>)
    ensures r.None? <==> forall i :: k <= i ==> !BangAt(s, i)
    ensures r.Some? ==> k <= r.value && BangAt(s, r.value)
                        && forall j :: k <= j < r.value ==> !BangAt(s, j)
    decreases |s| - k
  {
    if k + 1 >= |s| then None
    else if BangAt(s, k) then Some(k)
    else FirstBangFrom(s, k + 1)
  }

  /** The greedy `[A-Z]{1,5}` with `n` letters left: the upper-case letters at the
      start of `s`, at most `n` of them. */
  function UpperRun(s: string, n: nat): (r: string)
    ensures |r| <= n && |r| <= |s|
    ensures forall i :: 0 <= i < |r| ==> r[i] == s[i] && IsUpper(r[i])
    ensures |r| < n && |r| < |s| ==> !IsUpper(s[|r|])
  {
    if n == 0 || s == [] || !IsUpper(s[0]) then [] else [s[0]] + UpperRun(s[1..], n - 1)
  }

  /** `response.match_data[0].strip.sub('!', '')`: the letters of the leftmost match
      of `/![A-Z]{1,5}/` in the message, or None when there is no match (and the
      handler is not called). */
  function CoinSymbol(body: string): (r: Option<string>)
    ensures r.None? <==> forall i :: !BangAt(body, i)
    ensures r.Some? ==> exists i :: BangAt(body, i) && (forall j :: 0 <= j < i ==> !BangAt(body, j))
                                    && r.value == UpperRun(body[i + 1..], 5)
  {
    match FirstBangFrom(body, 0)
    case None => None
    case Some(i) => Some(UpperRun(body[i + 1..], 5))
  }

  /** The coin symbol is one to five upper-case letters taken from the message. */
  lemma CoinSymbolShape(body: string)
    requires CoinSymbol(body).Some?
    ensures 1 <= |CoinSymbol(body).value| <= 5
    ensures forall i :: 0 <= i < |CoinSymbol(body).value| ==> IsUpper(CoinSymbol(body).value[i])
  {
    var i := FirstBangFrom(body, 0).value;
    var t := body[i + 1..];
    assert t[0] == body[i + 1];
    assert UpperRun(t, 5) == [t[0]] + UpperRun(t[1..], 4);
  }

  /** "!BTC" names BTC; a message without a '!' before a capital names no coin. */
  lemma CoinSymbolExamples()
    ensures CoinSymbol("!BTC") == Some("BTC")
    ensures CoinSymbol("a!b") == None
  {
    assert BangAt("!BTC", 0);
    assert "!BTC"[1..] == "BTC";
    assert UpperRun("BTC", 5) == "BTC" by {
      assert "BTC"[1..] == "TC" && "TC"[1..] == "C" && "C"[1..] == [];
    }
    assert forall i :: !BangAt("a!b", i);
  }

  /** A run of at least `n` capitals gives its first `n`. */
  lemma {:induction false} UpperRunFull(s: string, n: nat)
    requires n <= |s|
    requires forall i :: 0 <= i < n ==> IsUpper(s[i])
    ensures UpperRun(s, n) == s[..n]
  {
    if n > 0 {
      UpperRunFull(s[1..], n - 1);
      assert s[..n] == [s[0]] + s[1..][..n - 1];
    }
  }

  /** At most five letters are taken: "!ABCDEFG" names ABCDE. */
  lemma CoinSymbolLongExample()
    ensures CoinSymbol("!ABCDEFG") == Some("ABCDE")
  {
    var s := "ABCDEFG";
    assert BangAt("!ABCDEFG", 0);
    assert "!ABCDEFG"[1..] == s;
    UpperRunFull(s, 5);
    assert s[..5] == "ABCDE";
  }

  // ---------------------------------------------------------------------
  // `.price [COIN] [CURRENCY] [exchange]`

  /** `r` is what `xs.find { |x| p(x) } || default` gives: the first element satisfying
      `p`, or the default when there is none. */
  ghost predicate FirstOr(xs: seq<string>, p: string -> bool, default: string, r: string) {
    || (exists i :: 0 <= i < |xs| && p(xs[i]) && r == xs[i] && forall j :: 0 <= j < i ==> !p(xs[j]))
    || ((forall i :: 0 <= i < |xs| ==> !p(xs[i])) && r == default)
  }

  /** The description picks out one value. */
  lemma FirstOrUnique(xs: seq<string>, p: string -> bool, default: string, r1: string, r2: string)
    requires FirstOr(xs, p, default, r1) && FirstOr(xs, p, default, r2)
    ensures r1 == r2
  {
    if i :| 0 <= i < |xs| && p(xs[i]) && r1 == xs[i] && forall j :: 0 <= j < i ==> !p(xs[j]) {
      var k :| 0 <= k < |xs| && p(xs[k]) && r2 == xs[k] && forall j :: 0 <= j < k ==> !p(xs[j]);
      assert !(i < k) && !(k < i);
    }
  }

  /** `xs.find { |x| p(x) } || default`, scanning from the front. */
  function FindOr(xs: seq<string>, p: string -> bool, default: string): (r: string)
    ensures FirstOr(xs, p, default, r)
  {
    if xs == [] then default
    else if p(xs[0]) then xs[0]
    else
      var r := FindOr(xs[1..], p, default);
      if i :| 0 <= i < |xs[1..]| && p(xs[1..][i]) && r == xs[1..][i] && forall j :: 0 <= j < i ==> !p(xs[1..][j]) then
        assert forall j :: 0 <= j < i + 1 ==> !p(xs[j]) by {
          forall j | 0 <= j < i + 1 ensures !p(xs[j]) {
            if j > 0 { assert xs[j] == xs[1..][j - 1]; }
          }
        }
        assert p(xs[i + 1]) && r == xs[i + 1];
        r
      else
        assert forall i :: 0 <= i < |xs| ==> !p(xs[i]) by {
          forall i | 0 <= i < |xs| ensures !p(xs[i]) {
            if i > 0 { assert xs[i] == xs[1..][i - 1]; }
          }
        }
        r
  }

  /** The arguments `.price` uses: the coin taken off the front, then the currency and
      the exchange searched for among the arguments left. */
  datatype PriceArgs = PriceArgs(coin: Nilable, currency: string, exchange: string)

  /** The coin is the first argument, if any; the currency is the first of the other
      arguments with a capital letter in it, or "USD"; the exchange is the first of them
      with a small letter in it, or "CCCAGG". */
  function SelectPriceArgs(args: seq<string>): (sel: PriceArgs)
    ensures args == [] <==> sel.coin.None?
    ensures args != [] ==> sel.coin.value == args[0]
    ensures FirstOr(if args == [] then [] else args[1..], HasUpper, "USD", sel.currency)
    ensures FirstOr(if args == [] then [] else args[1..], HasLower, "CCCAGG", sel.exchange)
  {
    if args == [] then PriceArgs(None, FindOr([], HasUpper, "USD"), FindOr([], HasLower, "CCCAGG"))
    else PriceArgs(Some(args[0]), FindOr(args[1..], HasUpper, "USD"), FindOr(args[1..], HasLower, "CCCAGG"))
  }

  const PriceEndpoint: string := "https://min-api.cryptocompare.com/data/price?fsym="

  /** The `.price` URL: the coin, the currency and the exchange as the query
      parameters `fsym`, `tsyms` and `e`. The coin and the currency read back as
      the first two parameters when they hold no '&', and the exchange is the last one. */
  function PriceUrl(sel: PriceArgs): (url: string)
    ensures PriceEndpoint <= url
    ensures '&' !in ToS(sel.coin) ==> Before(url[|PriceEndpoint|..], '&') == ToS(sel.coin)
    ensures |url| == |PriceEndpoint| + |ToS(sel.coin)| + 7 + |sel.currency| + 3 + |sel.exchange|
    ensures url[|PriceEndpoint| + |ToS(sel.coin)|..][..7] == "&tsyms="
    ensures '&' !in sel.currency ==> Before(url[|PriceEndpoint| + |ToS(sel.coin)| + 7..], '&') == sel.currency
    ensures url[|url| - |sel.exchange| - 3..] == "&e=" + sel.exchange
  {
    PriceUrlParts(PriceEndpoint, ToS(sel.coin), sel.currency, sel.exchange);
    PriceEndpoint + ToS(sel.coin) + ("&tsyms=" + sel.currency + ("&e=" + sel.exchange))
  }

  /** Where each parameter sits in a URL built like the `.price` one, for any endpoint. */
  lemma PriceUrlParts(p: string, coin: string, currency: string, exchange: string)
    ensures var url := p + coin + ("&tsyms=" + currency + ("&e=" + exchange));
      && p <= url
      && |url| == |p| + |coin| + 7 + |currency| + 3 + |exchange|
      && ('&' !in coin ==> Before(url[|p|..], '&') == coin)
      && url[|p| + |coin|..][..7] == "&tsyms="
      && ('&' !in currency ==> Before(url[|p| + |coin| + 7..], '&') == currency)
      && url[|url| - |exchange| - 3..] == "&e=" + exchange
  {
    var last := "&e=" + exchange;
    var rest := "&tsyms=" + currency + last;
    var url := p + coin + rest;
    assert url[|p|..] == coin + rest;
    assert url[|p| + |coin|..] == rest;
    assert url[|p| + |coin| + 7..] == currency + last;
    assert url[|url| - |exchange| - 3..] == last;
    if '&' !in coin {
      BeforeSplit(coin, rest, '&');
    }
    if '&' !in currency {
      BeforeSplit(currency, last, '&');
    }
  }

  /** The `.price` reply: the coin, a colon and a space, the quote, then the currency
      name; `quotes` holds the printed value of each currency in the parsed answer. */
  function PriceText(sel: PriceArgs, quotes: map<string, string>): (t: string)
    ensures |t| == |ToS(sel.coin)| + 2 + |ToS(Lookup(quotes, sel.currency))| + |sel.currency|
    ensures t[..|ToS(sel.coin)| + 2] == ToS(sel.coin) + ": "
    ensures t[|ToS(sel.coin)| + 2..|t| - |sel.currency|] == ToS(Lookup(quotes, sel.currency))
    ensures t[|t| - |sel.currency|..] == sel.currency
  {
    ToS(sel.coin) + ": " + ToS(Lookup(quotes, sel.currency)) + sel.currency
  }

  /** A reader of the reply gets the coin back as the text before the first ':', when
      the coin holds none. */
  lemma PriceTextCoin(sel: PriceArgs, quotes: map<string, string>)
    requires ':' !in ToS(sel.coin)
    ensures Before(PriceText(sel, quotes), ':') == ToS(sel.coin)
  {
    var coin, rest := ToS(sel.coin), ToS(Lookup(quotes, sel.currency)) + sel.currency;
    assert PriceText(sel, quotes) == coin + (": " + rest);
    BeforeSplit(coin, ": " + rest, ':');
  }

  /** `price(response)`: `args.shift` takes the coin, the two searches run on what is
      left, the URL goes out, and the reply is built from the parsed prices. */
  method Price(args: seq<string>, body: string, quotes: map<string, string>) returns (url: string, reply: Reply)
    ensures url == PriceUrl(SelectPriceArgs(args))
    ensures reply == Reply(PriceText(SelectPriceArgs(args), quotes), WantsPrivate(body))
  {
    var rest := args;
    var coin: Nilable := None;
    if rest != [] {
      coin := Some(rest[0]);
      rest := rest[1..];
    }
    var currency := FindOr(rest, HasUpper, "USD");
    var exchange := FindOr(rest, HasLower, "CCCAGG");
    url := PriceEndpoint + ToS(coin) + ("&tsyms=" + currency + ("&e=" + exchange));
    var msg := ToS(coin) + ": " + ToS(Lookup(quotes, currency)) + currency;
    reply := Reply(msg, WantsPrivate(body));
  }

  /** One step of the search. */
  lemma FindOrCons(x: string, xs: seq<string>, p: string -> bool, default: string)
    ensures FindOr([x] + xs, p, default) == if p(x) then x else FindOr(xs, p, default)
  {
    assert ([x] + xs)[0] == x && ([x] + xs)[1..] == xs;
  }

  /** Without further arguments both defaults apply. */
  lemma PriceArgsDefaults()
    ensures SelectPriceArgs(["BTC"]) == PriceArgs(Some("BTC"), "USD", "CCCAGG")
    ensures SelectPriceArgs([]) == PriceArgs(None, "USD", "CCCAGG")
  {
    assert ["BTC"][1..] == [];
  }

  /** The coin is taken off before the searches, so it is never the currency. */
  lemma PriceArgsInOrder()
    ensures SelectPriceArgs(["BTC", "EUR", "kraken"]) == PriceArgs(Some("BTC"), "EUR", "kraken")
  {
    assert ["BTC", "EUR", "kraken"][1..] == ["EUR"] + ["kraken"];
    assert HasUpper("EUR") by { assert IsUpper("EUR"[0]); }
    assert !HasLower("EUR");
    assert HasLower("kraken") by { assert IsLower("kraken"[0]); }
    FindOrCons("EUR", ["kraken"], HasUpper, "USD");
    FindOrCons("EUR", ["kraken"], HasLower, "CCCAGG");
    FindOrCons("kraken", [], HasLower, "CCCAGG");
  }

  /** One argument such as "Kraken" can be both the currency and the exchange, and the
      marker "-p" counts as an exchange. */
  lemma PriceArgsShared()
    ensures SelectPriceArgs(["ETH", "Kraken"]) == PriceArgs(Some("ETH"), "Kraken", "Kraken")
    ensures SelectPriceArgs(["ETH", "-p"]) == PriceArgs(Some("ETH"), "USD", "-p")
  {
    assert ["ETH", "Kraken"][1..] == ["Kraken"] + [];
    assert ["ETH", "-p"][1..] == ["-p"] + [];
    assert HasUpper("Kraken") by { assert IsUpper("Kraken"[0]); }
    assert HasLower("Kraken") by { assert IsLower("Kraken"[1]); }
    assert !HasUpper("-p");
    assert HasLower("-p") by { assert IsLower("-p"[1]); }
    FindOrCons("Kraken", [], HasUpper, "USD");
    FindOrCons("Kraken", [], HasLower, "CCCAGG");
    FindOrCons("-p", [], HasUpper, "USD");
    FindOrCons("-p", [], HasLower, "CCCAGG");
  }

  // ---------------------------------------------------------------------
  // `!SYM`

  /** The parsed `DISPLAY[coin]` object: one record of printed fields per target currency. */
  type Display = map<string, map<string, string>>

  const Symbols: seq<string> := ["USD", "ETH", "BTC"]

  /** `tsyms.delete(coin)`: the currencies to quote the coin in. */
  function TargetSymbols(coin: string): (t: seq<string>)
    ensures coin !in t
    ensures forall y :: y != coin ==> (y in t <==> y in Symbols)
  {
    Delete(Symbols, coin)
  }

  /** The list for each coin: a coin that is one of the three currencies is left out
      of them, any other coin is quoted in all three, in order. */
  lemma TargetSymbolsCases(coin: string)
    ensures TargetSymbols(coin) ==
            if coin == "USD" then ["ETH", "BTC"]
            else if coin == "ETH" then ["USD", "BTC"]
            else if coin == "BTC" then ["USD", "ETH"]
            else Symbols
  {
    assert "USD" != "ETH" && "USD" != "BTC" && "ETH" != "BTC" by {
      assert "USD"[0] != "ETH"[0] && "USD"[0] != "BTC"[0] && "ETH"[0] != "BTC"[0];
    }
    DeleteThree("USD", "ETH", "BTC", coin);
  }

  /** Deleting from a list of three different names. */
  lemma DeleteThree(a: string, b: string, c: string, y: string)
    requires a != b && b != c && a != c
    ensures Delete([a, b, c], y) ==
            if y == a then [b, c] else if y == b then [a, c] else if y == c then [a, b] else [a, b, c]
  {
    assert [a, b, c] == [a] + ([b] + [c]);
    DeleteCons(a, [b] + [c], y);
    DeleteCons(b, [c], y);
    DeleteCons(c, [], y);
  }

  /** `tsyms.join(',')`, the currencies named in the URL. */
  lemma TargetSymbolsTable(coin: string)
    ensures Join(TargetSymbols(coin), ",") ==
            if coin == "USD" then "ETH,BTC"
            else if coin == "ETH" then "USD,BTC"
            else if coin == "BTC" then "USD,ETH"
            else "USD,ETH,BTC"
  {
    TargetSymbolsCases(coin);
    JoinCons("ETH", ["BTC"], ",");
    JoinCons("USD", ["BTC"], ",");
    JoinCons("USD", ["ETH"], ",");
    JoinCons("ETH", ["BTC"], ",");
    JoinCons("USD", ["ETH", "BTC"], ",");
    assert Symbols == ["USD"] + ["ETH", "BTC"];
    assert ["ETH", "BTC"] == ["ETH"] + ["BTC"];
    assert ["USD", "BTC"] == ["USD"] + ["BTC"];
    assert ["USD", "ETH"] == ["USD"] + ["ETH"];
  }

  const CoinInfoEndpoint: string := "https://min-api.cryptocompare.com/data/pricemultifull?fsyms="

  /** The `coin_info` URL: the coin as `fsyms`, then the target list joined by commas as
      `tsyms`; the coin reads back as the first parameter when it holds no '&'. */
  function CoinInfoUrl(coin: string): (url: string)
    ensures CoinInfoEndpoint <= url
    ensures '&' !in coin ==> Before(url[|CoinInfoEndpoint|..], '&') == coin
    ensures |url| == |CoinInfoEndpoint| + |coin| + 7 + |Join(TargetSymbols(coin), ",")|
    ensures url[|CoinInfoEndpoint| + |coin|..] == "&tsyms=" + Join(TargetSymbols(coin), ",")
  {
    var rest := "&tsyms=" + Join(TargetSymbols(coin), ",");
    var url := CoinInfoEndpoint + coin + rest;
    assert url[|CoinInfoEndpoint|..] == coin + rest;
    assert url[|CoinInfoEndpoint| + |coin|..] == rest;
    if '&' in coin then url else BeforeSplit(coin, rest, '&'); url
  }

  /** The fields `coin_info` reads are present; a missing one is a crash in the handler. */
  predicate HasFields(info: Display) {
    && "USD" in info
    && "PRICE" in info["USD"] && "HIGH24HOUR" in info["USD"]
    && "LOW24HOUR" in info["USD"] && "MKTCAP" in info["USD"]
    && ("ETH" in info ==> "PRICE" in info["ETH"])
    && ("BTC" in info ==> "PRICE" in info["BTC"])
  }

  /** `info[cur]['PRICE'].gsub(' ', '') if info[cur]`: the printed price in `cur` with its
      spaces removed, or nil when the answer has no record for `cur`. */
  function PriceIn(info: Display, cur: string): (r: Nilable)
    requires cur in info ==> "PRICE" in info[cur]
    ensures r.Some? <==> cur in info
    ensures r.Some? ==> ' ' !in r.value
  {
    if cur in info then Some(RemoveSpaces(info[cur]["PRICE"])) else None
  }

  /** The words of an optional price: "/" and the price, or none. */
  function Segment(p: Nilable): (ws: seq<string>)
    ensures p.None? ==> ws == []
    ensures p.Some? ==> |ws| == 2 && ws[0] == "/" && ws[1] == p.value
  {
    if p.Some? then ["/", p.value] else []
  }

  /** The reply of `coin_info` as the words between its single spaces: the coin, the USD
      price, "/" and a price for each of ETH and BTC that is there, then the market
      cap, the 24-hour high and low and the 24-hour change. */
  function Words(coin: string, usd: string, eth: Nilable, btc: Nilable,
                 cap: string, high: string, low: string, pct: string): seq<string>
  {
    [coin + ":", usd] + Segment(eth) + Segment(btc) + TailWords(cap, high, low, pct)
  }

  function TailWords(cap: string, high: string, low: string, pct: string): seq<string> {
    ["-", "MC:", cap, "-", "H:", high, "/", "L:", low, "/", pct + "%"]
  }

  /** A slash, a space, the price and a space when the price is there, nothing otherwise. */
  function SegmentText(p: Nilable): string {
    if p.Some? then "/ " + p.value + " " else ""
  }

  /** The end of the reply: the market cap, the 24-hour high and low, and the 24-hour
      change with a percent sign, separated by labels, dashes and slashes. */
  function TailText(cap: string, high: string, low: string, pct: string): string {
    "- MC: " + cap + " - H: " + high + " / L: " + low + " / " + pct + "%"
  }

  /** The fixed end of the reply is its last eleven words joined by spaces. */
  lemma TailTextIsJoin(cap: string, high: string, low: string, pct: string)
    ensures TailText(cap, high, low, pct) == Join(TailWords(cap, high, low, pct), " ")
  {
    var w10 := [pct + "%"];
    var w9 := ["/"] + w10;
    var w8 := [low] + w9;
    var w7 := ["L:"] + w8;
    var w6 := ["/"] + w7;
    var w5 := [high] + w6;
    var w4 := ["H:"] + w5;
    var w3 := ["-"] + w4;
    var w2 := [cap] + w3;
    var w1 := ["MC:"] + w2;
    var w0 := ["-"] + w1;
    assert TailWords(cap, high, low, pct) == w0;
    JoinCons("/", w10, " ");
    JoinCons(low, w9, " ");
    JoinCons("L:", w8, " ");
    JoinCons("/", w7, " ");
    JoinCons(high, w6, " ");
    JoinCons("H:", w5, " ");
    JoinCons("-", w4, " ");
    JoinCons(cap, w3, " ");
    JoinCons("MC:", w2, " ");
    JoinCons("-", w1, " ");
    TailTextSpaced(cap, high, low, pct);
  }

  /** The end of the reply with each space between two words written out. */
  lemma TailTextSpaced(cap: string, high: string, low: string, pct: string)
    ensures TailText(cap, high, low, pct)
            == "-" + " " + ("MC:" + " " + (cap + " " + ("-" + " " + ("H:" + " " + (high + " "
               + ("/" + " " + ("L:" + " " + (low + " " + ("/" + " " + (pct + "%"))))))))))
  {
    SpacedLiterals();
  }

  /** The literals of the reply's end, cut at their spaces. */
  lemma SpacedLiterals()
    ensures "- MC: " == "-" + " " + "MC:" + " "
    ensures " - H: " == " " + "-" + " " + "H:" + " "
    ensures " / L: " == " " + "/" + " " + "L:" + " "
    ensures " / " == " " + "/" + " "
    ensures ": " == ":" + " "
    ensures "/ " == "/" + " "
  {
  }

  /** The text the handler builds by appending is the words joined by single spaces. */
  lemma CoinInfoTextIsJoin(coin: string, usd: string, eth: Nilable, btc: Nilable,
                           cap: string, high: string, low: string, pct: string)
    ensures coin + ": " + (usd + " ") + SegmentText(eth) + SegmentText(btc) + TailText(cap, high, low, pct)
            == Join(Words(coin, usd, eth, btc, cap, high, low, pct), " ")
  {
    var tail := TailWords(cap, high, low, pct);
    TailTextIsJoin(cap, high, low, pct);
    var r2 := Segment(btc) + tail;
    JoinSegment(btc, tail);
    var r1 := Segment(eth) + r2;
    JoinSegment(eth, r2);
    JoinCons(usd, r1, " ");
    JoinCons(coin + ":", [usd] + r1, " ");
    WordsCons(coin + ":", usd, Segment(eth), Segment(btc), tail);
    HeadSpaced(coin, usd, SegmentText(eth), SegmentText(btc), TailText(cap, high, low, pct));
  }

  lemma WordsCons(a: string, b: string, s: seq<string>, t: seq<string>, u: seq<string>)
    ensures [a, b] + s + t + u == [a] + ([b] + (s + (t + u)))
  {
    assert [a, b] == [a] + [b];
  }

  lemma HeadSpaced(coin: string, usd: string, x: string, y: string, z: string)
    ensures coin + ": " + (usd + " ") + x + y + z == coin + ":" + " " + (usd + " " + (x + (y + z)))
  {
    SpacedLiterals();
  }

  lemma JoinSegment(p: Nilable, rest: seq<string>)
    requires rest != []
    ensures Join(Segment(p) + rest, " ") == SegmentText(p) + Join(rest, " ")
  {
    if p.Some? {
      SpacedLiterals();
      JoinCons(p.value, rest, " ");
      JoinCons("/", [p.value] + rest, " ");
      assert Segment(p) + rest == ["/"] + ([p.value] + rest);
    } else {
      assert Segment(p) + rest == rest;
    }
  }

  /** The reply `coin_info` sends for the answer `info`. */
  function CoinInfoWords(coin: string, info: Display): (ws: seq<string>)
    requires HasFields(info)
    ensures |ws| == 13 + (if "ETH" in info then 2 else 0) + (if "BTC" in info then 2 else 0)
    ensures ws[0] == coin + ":" && ws[1] == RemoveSpaces(info["USD"]["PRICE"])
    ensures "ETH" in info ==> ws[2] == "/" && ws[3] == RemoveSpaces(info["ETH"]["PRICE"])
    ensures "BTC" in info ==> var k := if "ETH" in info then 4 else 2;
      ws[k] == "/" && ws[k + 1] == RemoveSpaces(info["BTC"]["PRICE"])
    ensures ws[|ws| - 1] == ToS(Percent.Percent(Lookup(info["USD"], "CHANGEPCT24HOUR"))) + "%"
    ensures ws[|ws| - 11..] == TailWords(RemoveSpaces(info["USD"]["MKTCAP"]), RemoveSpaces(info["USD"]["HIGH24HOUR"]),
                                         RemoveSpaces(info["USD"]["LOW24HOUR"]),
                                         ToS(Percent.Percent(Lookup(info["USD"], "CHANGEPCT24HOUR"))))
  {
    var usd := info["USD"];
    Words(coin, RemoveSpaces(usd["PRICE"]), PriceIn(info, "ETH"), PriceIn(info, "BTC"),
          RemoveSpaces(usd["MKTCAP"]), RemoveSpaces(usd["HIGH24HOUR"]), RemoveSpaces(usd["LOW24HOUR"]),
          ToS(Percent.Percent(Lookup(usd, "CHANGEPCT24HOUR"))))
  }

  /** `coin_info(response)`: the target list, the URL, and the reply built by appending
      the fields of the parsed answer `info` (the `DISPLAY[coin]` object). */
  method CoinInfo(body: string, info: Display) returns (tsyms: seq<string>, url: string, reply: Reply)
    requires CoinSymbol(body).Some?
    requires HasFields(info)
    ensures tsyms == TargetSymbols(CoinSymbol(body).value)
    ensures url == CoinInfoUrl(CoinSymbol(body).value)
    ensures reply == Reply(Join(CoinInfoWords(CoinSymbol(body).value, info), " "), WantsPrivate(body))
  {
    var coin := CoinSymbol(body).value;
    tsyms := ["USD", "ETH", "BTC"];
    tsyms := Delete(tsyms, coin);
    url := "https://min-api.cryptocompare.com/data/pricemultifull?fsyms=" + coin
      + "&tsyms=" + Join(tsyms, ",");
    var msg := coin + ": ";
    var priceEth: Nilable := None;
    var priceBtc: Nilable := None;
    var priceUsd := RemoveSpaces(info["USD"]["PRICE"]);
    if "ETH" in info {
      priceEth := Some(RemoveSpaces(info["ETH"]["PRICE"]));
    }
    if "BTC" in info {
      priceBtc := Some(RemoveSpaces(info["BTC"]["PRICE"]));
    }
    var high := RemoveSpaces(info["USD"]["HIGH24HOUR"]);
    var low := RemoveSpaces(info["USD"]["LOW24HOUR"]);
    var cap := RemoveSpaces(info["USD"]["MKTCAP"]);
    var pct := Percent.Percent(Lookup(info["USD"], "CHANGEPCT24HOUR"));
    msg := msg + (priceUsd + " ");
    ghost var head := msg;
    if priceEth.Some? {
      msg := msg + ("/ " + priceEth.value + " ");
    }
    assert msg == head + SegmentText(priceEth);
    ghost var head2 := msg;
    if priceBtc.Some? {
      msg := msg + ("/ " + priceBtc.value + " ");
    }
    assert msg == head2 + SegmentText(priceBtc);
    msg := msg + ("- MC: " + cap + " - H: " + high + " / L: " + low + " / " + ToS(pct) + "%");
    assert priceEth == PriceIn(info, "ETH") && priceBtc == PriceIn(info, "BTC");
    CoinInfoTextIsJoin(coin, priceUsd, priceEth, priceBtc, cap, high, low, ToS(pct));
    reply := Reply(msg, WantsPrivate(body));
  }

  /** No word contains a space. */
  predicate NoSpaces(ws: seq<string>) {
    forall i :: 0 <= i < |ws| ==> ' ' !in ws[i]
  }

  lemma NoSpacesAppend(xs: seq<string>, ys: seq<string>)
    requires NoSpaces(xs) && NoSpaces(ys)
    ensures NoSpaces(xs + ys)
  {
    forall i | 0 <= i < |xs + ys| ensures ' ' !in (xs + ys)[i] {
      if i >= |xs| {
        assert (xs + ys)[i] == ys[i - |xs|];
      }
    }
  }

  /** Splitting the reply at its spaces gives back its words, when the coin and the
      24-hour change have no spaces (every other field has had its spaces removed): the
      ETH and BTC segments are there exactly when those prices are, one word each. */
  lemma WordsRoundTrip(coin: string, usd: string, eth: Nilable, btc: Nilable,
                       cap: string, high: string, low: string, pct: string)
    requires ' ' !in coin && ' ' !in usd && ' ' !in cap && ' ' !in high && ' ' !in low && ' ' !in pct
    requires eth.Some? ==> ' ' !in eth.value
    requires btc.Some? ==> ' ' !in btc.value
    ensures Split(Join(Words(coin, usd, eth, btc, cap, high, low, pct), " "), ' ')
            == Words(coin, usd, eth, btc, cap, high, low, pct)
    ensures |Words(coin, usd, eth, btc, cap, high, low, pct)|
            == 13 + (if eth.Some? then 2 else 0) + (if btc.Some? then 2 else 0)
  {
    var tail := TailWords(cap, high, low, pct);
    assert ' ' !in coin + ":" && ' ' !in pct + "%";
    assert NoSpaces([coin + ":", usd]);
    assert NoSpaces(Segment(eth)) && NoSpaces(Segment(btc));
    assert NoSpaces(tail) by {
      assert ' ' !in "-" && ' ' !in "MC:" && ' ' !in "H:" && ' ' !in "/" && ' ' !in "L:";
    }
    NoSpacesAppend([coin + ":", usd], Segment(eth));
    NoSpacesAppend([coin + ":", usd] + Segment(eth), Segment(btc));
    NoSpacesAppend([coin + ":", usd] + Segment(eth) + Segment(btc), tail);
    SplitJoin(Words(coin, usd, eth, btc, cap, high, low, pct), ' ');
  }

  /** The same for the reply to an answer `info`. */
  lemma CoinInfoRoundTrip(coin: string, info: Display)
    requires HasFields(info)
    requires ' ' !in coin
    requires ' ' !in ToS(Percent.Percent(Lookup(info["USD"], "CHANGEPCT24HOUR")))
    ensures Split(Join(CoinInfoWords(coin, info), " "), ' ') == CoinInfoWords(coin, info)
    ensures |CoinInfoWords(coin, info)| == 13 + (if "ETH" in info then 2 else 0) + (if "BTC" in info then 2 else 0)
  {
    var usd := info["USD"];
    WordsRoundTrip(coin, RemoveSpaces(usd["PRICE"]), PriceIn(info, "ETH"), PriceIn(info, "BTC"),
                   RemoveSpaces(usd["MKTCAP"]), RemoveSpaces(usd["HIGH24HOUR"]), RemoveSpaces(usd["LOW24HOUR"]),
                   ToS(Percent.Percent(Lookup(usd, "CHANGEPCT24HOUR"))));
  }

  // ---------------------------------------------------------------------
  // `.top [X]`

  /** One entry of the parsed ticker list; a null JSON field is None. */
  datatype Ticker = Ticker(
    name: Nilable, symbol: Nilable,
    priceUsd: Nilable, priceBtc: Nilable, marketCapUsd: Nilable,
    availableSupply: Nilable, maxSupply: Nilable,
    change1h: Nilable, change24h: Nilable, change7d: Nilable)

  /** The literal the handler puts before the BTC price, as the source spells it
      (the baht sign, stored in a mis-decoded form). */
  const BtcMark: string := "\U{E0}\U{B8}\U{BF}"

  /** The first line of a block: the name, the symbol, and the USD and BTC prices
      with thousands separators; one line when the fields it prints are. */
  function HeaderLine(c: Ticker): (r: string)
    ensures SingleLine(c.name) && SingleLine(c.symbol) && SingleLine(c.priceUsd) && SingleLine(c.priceBtc)
      ==> '\n' !in r
  {
    FormattedSingleLine(c.priceUsd);
    FormattedSingleLine(c.priceBtc);
    HeaderText(ToS(c.name), ToS(c.symbol), CommasOf(c.priceUsd), CommasOf(c.priceBtc))
  }

  /** The second line: the 1-hour, 24-hour and 7-day changes, signed by `percent`;
      one line when the changes are. */
  function ChangeLine(c: Ticker): (r: string)
    ensures SingleLine(c.change1h) && SingleLine(c.change24h) && SingleLine(c.change7d) ==> '\n' !in r
  {
    FormattedSingleLine(c.change1h);
    FormattedSingleLine(c.change24h);
    FormattedSingleLine(c.change7d);
    ChangeText(ToS(Percent.Percent(c.change1h)), ToS(Percent.Percent(c.change24h)), ToS(Percent.Percent(c.change7d)))
  }

  /** The third line: the market capitalisation in USD; one line when the value is. */
  function CapLine(c: Ticker): (r: string)
    ensures SingleLine(c.marketCapUsd) ==> '\n' !in r
  {
    FormattedSingleLine(c.marketCapUsd);
    CapText(CommasOf(c.marketCapUsd))
  }

  /** The fourth line: the available and the maximal supply; one line when both are. */
  function SupplyLine(c: Ticker): (r: string)
    ensures SingleLine(c.availableSupply) && SingleLine(c.maxSupply) ==> '\n' !in r
  {
    FormattedSingleLine(c.availableSupply);
    FormattedSingleLine(c.maxSupply);
    SupplyText(CommasOf(c.availableSupply), CommasOf(c.maxSupply))
  }

  /* The fixed parts of the lines hold no newline, so a line holds one exactly where
     a field does. */

  function HeaderText(name: string, symbol: string, usd: string, btc: string): (r: string)
    ensures '\n' in r <==> '\n' in name || '\n' in symbol || '\n' in usd || '\n' in btc
  {
    assert '\n' !in ": " && '\n' !in " - $" && '\n' !in " / " && '\n' !in BtcMark;
    name + ": " + symbol + " - $" + usd + " / " + BtcMark + btc
  }

  function ChangeText(hour: string, day: string, week: string): (r: string)
    ensures '\n' in r <==> '\n' in hour || '\n' in day || '\n' in week
  {
    assert '\n' !in "%/hr - " && '\n' !in "%/d - " && '\n' !in "%/w";
    hour + "%/hr - " + day + "%/d - " + week + "%/w"
  }

  function CapText(cap: string): (r: string)
    ensures '\n' in r <==> '\n' in cap
  {
    assert '\n' !in "Market Cap: $";
    "Market Cap: $" + cap
  }

  function SupplyText(available: string, max: string): (r: string)
    ensures '\n' in r <==> '\n' in available || '\n' in max
  {
    assert '\n' !in "Supply: " && '\n' !in " / ";
    "Supply: " + available + " / " + max
  }

  /** The text ends in an empty line. */
  predicate EndsWithBlankLine(s: string) {
    |s| >= 2 && s[|s| - 2] == '\n' && s[|s| - 1] == '\n'
  }

  /** Four lines, each ended by a newline, and one more newline after the last. */
  function BlockText(h: string, ch: string, cap: string, sup: string): (b: string)
    ensures EndsWithBlankLine(b)
  {
    var t := h + "\n" + ch + "\n" + cap + "\n" + (sup + "\n\n");
    assert t[|t| - 1] == "\n\n"[1] && t[|t| - 2] == "\n\n"[0];
    t
  }

  /** Appending the four lines one by one appends the block. */
  lemma AppendLines(msg: string, h: string, ch: string, cap: string, sup: string)
    ensures msg + (h + "\n") + (ch + "\n") + (cap + "\n") + (sup + "\n\n") == msg + BlockText(h, ch, cap, sup)
  {
  }

  /** The block is its four lines and two empty pieces joined by newlines. */
  lemma BlockTextIsJoin(h: string, ch: string, cap: string, sup: string)
    ensures BlockText(h, ch, cap, sup) == Join([h, ch, cap, sup, "", ""], "\n")
  {
    var nl := "\n";
    var w5 := [""];
    var w4 := [""] + w5;
    var w3 := [sup] + w4;
    var w2 := [cap] + w3;
    var w1 := [ch] + w2;
    var w0 := [h] + w1;
    assert [h, ch, cap, sup, "", ""] == w0;
    JoinCons("", w5, nl);
    JoinCons(sup, w4, nl);
    JoinCons(cap, w3, nl);
    JoinCons(ch, w2, nl);
    JoinCons(h, w1, nl);
    assert sup + "\n\n" == sup + nl + ("" + nl + "");
  }

  /** Splitting a block at its newlines gives back its four lines, then two empty
      pieces, when no line holds a newline of its own. */
  lemma BlockTextRoundTrip(h: string, ch: string, cap: string, sup: string)
    requires '\n' !in h && '\n' !in ch && '\n' !in cap && '\n' !in sup
    ensures Split(BlockText(h, ch, cap, sup), '\n') == [h, ch, cap, sup, "", ""]
  {
    BlockTextIsJoin(h, ch, cap, sup);
    var ws := [h, ch, cap, sup, "", ""];
    assert forall i :: 0 <= i < |ws| ==> '\n' !in ws[i];
    SplitJoin(ws, '\n');
  }

  lemma EndsWithBlankLineAfter(a: string, b: string)
    requires EndsWithBlankLine(b)
    ensures EndsWithBlankLine(a + b)
  {
    assert (a + b)[|a + b| - 1] == b[|b| - 1] && (a + b)[|a + b| - 2] == b[|b| - 2];
  }

  /** The four lines `top` appends for one coin; the block ends in an empty line. */
  function Block(c: Ticker): (b: string)
    ensures EndsWithBlankLine(b)
  {
    BlockText(HeaderLine(c), ChangeLine(c), CapLine(c), SupplyLine(c))
  }

  /** A field of the ticker, printed on one line. */
  predicate SingleLine(v: Nilable) {
    '\n' !in ToS(v)
  }

  /** No field of the ticker holds a newline. */
  predicate SingleLineFields(c: Ticker) {
    && SingleLine(c.name) && SingleLine(c.symbol)
    && SingleLine(c.priceUsd) && SingleLine(c.priceBtc) && SingleLine(c.marketCapUsd)
    && SingleLine(c.availableSupply) && SingleLine(c.maxSupply)
    && SingleLine(c.change1h) && SingleLine(c.change24h) && SingleLine(c.change7d)
  }

  /** `commas` and `percent` keep a value on one line. */
  lemma FormattedSingleLine(v: Nilable)
    ensures SingleLine(v) ==> '\n' !in CommasOf(v)
    ensures SingleLine(v) ==> '\n' !in ToS(Percent.Percent(v))
  {
    if v.Some? && SingleLine(v) {
      NoNewlineSplitsWhole(v.value);
      CommasOnlyInsertsCommas(v.value);
      InsertedKeeps(v.value, CommasOf(v), '\n');
      PercentShape(v.value);
    }
  }

  /** Splitting the block of a coin at its newlines gives back the header, change,
      market-cap and supply lines in that order, then two empty pieces. */
  lemma BlockRoundTrip(c: Ticker)
    requires SingleLineFields(c)
    ensures Split(Block(c), '\n') == [HeaderLine(c), ChangeLine(c), CapLine(c), SupplyLine(c), "", ""]
  {
    BlockTextRoundTrip(HeaderLine(c), ChangeLine(c), CapLine(c), SupplyLine(c));
  }

  /** The blocks of the coins, in the order of the list; a non-empty list gives a
      text ending in an empty line. */
  function Blocks(coins: seq<Ticker>): (msg: string)
    ensures coins == [] ==> msg == ""
    ensures coins != [] ==> EndsWithBlankLine(msg)
  {
    if coins == [] then ConcatMap(coins, Block)
    else
      ConcatMapLast(coins, Block);
      EndsWithBlankLineAfter(ConcatMap(coins[..|coins| - 1], Block), Block(coins[|coins| - 1]));
      ConcatMap(coins, Block)
  }

  /** The message for a list of coins is the message for its first part followed by the
      message for the rest. */
  lemma BlocksAppend(xs: seq<Ticker>, ys: seq<Ticker>)
    ensures Blocks(xs + ys) == Blocks(xs) + Blocks(ys)
  {
    ConcatMapAppend(xs, ys, Block);
  }

  /** Each coin contributes its own block, whatever surrounds it. */
  lemma BlocksOne(xs: seq<Ticker>, c: Ticker, ys: seq<Ticker>)
    ensures Blocks(xs + [c] + ys) == Blocks(xs) + Block(c) + Blocks(ys)
  {
    BlocksAppend(xs + [c], ys);
    BlocksAppend(xs, [c]);
    ConcatMapOne(c, Block);
  }

  const TopEndpoint: string := "https://api.coinmarketcap.com/v1/ticker/?limit="

  /** The `top` URL: the limit parameter is the first argument, or 5 without one. */
  function TopUrl(args: seq<string>): (url: string)
    ensures TopEndpoint <= url
    ensures args != [] ==> url[|TopEndpoint|..] == args[0]
    ensures args == [] ==> url[|TopEndpoint|..] == "5"
  {
    var url := TopEndpoint + (if args == [] then "5" else args[0]);
    assert url[|TopEndpoint|..] == if args == [] then "5" else args[0];
    url
  }

  /** `top(response)`: the URL with the limit (the first argument, or 5), then one block
      per coin of the parsed answer appended to `msg`. */
  method Top(args: seq<string>, coins: seq<Ticker>, body: string) returns (url: string, reply: Reply)
    ensures url == TopUrl(args)
    ensures reply == Reply(Blocks(coins), WantsPrivate(body))
  {
    var limit := if args == [] then "5" else args[0];
    url := "https://api.coinmarketcap.com/v1/ticker/?limit=" + limit;
    var msg := "";
    for i := 0 to |coins|
      invariant msg == ConcatMap(coins[..i], Block)
    {
      var c := coins[i];
      var priceUsd := Commas.Commas(c.priceUsd);
      var priceBtc := Commas.Commas(c.priceBtc);
      var mcUsd := Commas.Commas(c.marketCapUsd);
      var available := Commas.Commas(c.availableSupply);
      var max := Commas.Commas(c.maxSupply);
      var pctHr := Percent.Percent(c.change1h);
      var pctD := Percent.Percent(c.change24h);
      var pctW := Percent.Percent(c.change7d);
      var header := ToS(c.name) + ": " + ToS(c.symbol) + " - $" + priceUsd + " / " + BtcMark + priceBtc;
      var change := ToS(pctHr) + "%/hr - " + ToS(pctD) + "%/d - " + ToS(pctW) + "%/w";
      var cap := "Market Cap: $" + mcUsd;
      var supply := "Supply: " + available + " / " + max;
      assert header == HeaderLine(c);
      assert change == ChangeLine(c);
      assert cap == CapLine(c);
      assert supply == SupplyLine(c);
      ghost var before := msg;
      msg := msg + (header + "\n");
      msg := msg + (change + "\n");
      msg := msg + (cap + "\n");
      msg := msg + (supply + "\n\n");
      AppendLines(before, header, change, cap, supply);
      ConcatMapStep(coins, i, Block);
    }
    assert coins[..|coins|] == coins;
    reply := Reply(msg, WantsPrivate(body));
  }
}
