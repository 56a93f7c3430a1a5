# Cryptocrat chat handler, modelled in Dafny

Cryptocrat is a Lita chat handler with three commands:

- `.price [COIN] [CURRENCY] [exchange]` asks CryptoCompare for one price.
- `.top [X]` asks CoinMarketCap for the top X coins (5 by default).
- `!SYM`, anywhere in a message, asks CryptoCompare for a summary of that coin.

Each command builds the URL of one HTTP request, reads the parsed JSON answer, formats a reply and sends it. The reply goes by private message when the message contains `-p`. Two helpers format numbers:

- `commas` puts thousands separators into a numeric string.
- `percent` puts a `+` in front of a positive change.

The model covers the text processing of the handler:

- `Values` models Ruby strings that may be nil, `to_s`, and Hash lookup.
- `Strings` models the String and Array operations the handler uses: `reverse`, `include?`, `gsub(' ', '')`, `join`, `delete`, and appending in a loop.
- `Commas` models `commas`:
  - one `gsub!` pass of `/(,|\.|^)(\d{3})(\d)/` is a pure function;
  - the `while gsub!` loop is a method with a loop, and its termination is proved;
  - the grouped form is stated as a specification.
- `Percent` models `percent`. Ruby's `to_f` is replaced by an exact sign test on the decimal prefix that `to_f` reads.
- `Handlers` models the three commands and the private-reply test:
  - The URL is a result of each method.
  - The parsed answer is a parameter: a map of printed quotes for `.price`, a list of `Ticker` records for `.top`, and the `DISPLAY[coin]` object for `!SYM`.
  - The reply is a `Reply(text, isPrivate)`.

## Model

Every member below models part of `lita-cryptocrat/lib/lita/handlers/cryptocrat.rb`.

| member | source | states |
|---|---|---|
| Values.ToS | lita-cryptocrat/lib/lita/handlers/cryptocrat.rb:102 | nil reads as the empty string; a string reads as itself |
| Values.Lookup | lita-cryptocrat/lib/lita/handlers/cryptocrat.rb:27 | a Hash lookup gives a value exactly when the key is present, and then the key's value |
| Strings.Reverse | lita-cryptocrat/lib/lita/handlers/cryptocrat.rb:103-106 | `reverse`: the same length, with the character at each position taken from the mirrored position |
| Strings.Includes | lita-cryptocrat/lib/lita/handlers/cryptocrat.rb:29 | `include?` holds exactly when the pattern occurs at some position of the string |
| Strings.RemoveSpaces | lita-cryptocrat/lib/lita/handlers/cryptocrat.rb:78-84 | the result has no space; every other character occurs in it exactly when it occurs in the input; a text without spaces is unchanged |
| Strings.RemoveSpacesAppend | lita-cryptocrat/lib/lita/handlers/cryptocrat.rb:78-84 | deleting the spaces of two texts one after the other: what is kept stays in order |
| Strings.RemoveSpacesOne | lita-cryptocrat/lib/lita/handlers/cryptocrat.rb:78-84 | a space is deleted and any other character is kept, so with `RemoveSpacesAppend` the result is the input without its spaces, in order and with every repeat |
| Strings.Delete | lita-cryptocrat/lib/lita/handlers/cryptocrat.rb:69 | the deleted value is gone, every other value is kept, and a list without the value is unchanged |
| Strings.DeleteCount | lita-cryptocrat/lib/lita/handlers/cryptocrat.rb:69 | the result is shorter by exactly the number of occurrences of the deleted value |
| Strings.DeleteAppend | lita-cryptocrat/lib/lita/handlers/cryptocrat.rb:69 | deleting from two lists one after the other: the elements kept stay in order |
| Strings.DeleteOne | lita-cryptocrat/lib/lita/handlers/cryptocrat.rb:69 | a one-element list keeps its element unless it is the value deleted, so with `DeleteAppend` the result is the list without the value, in order |
| Strings.Join | lita-cryptocrat/lib/lita/handlers/cryptocrat.rb:70 | `join`: an empty list gives "" and a single piece gives itself |
| Strings.SplitJoin | lita-cryptocrat/lib/lita/handlers/cryptocrat.rb:87-90 | splitting a joined text at the separator gives back the pieces when none contains the separator |
| Strings.ConcatMapAppend | lita-cryptocrat/lib/lita/handlers/cryptocrat.rb:43-57 | appending each element's text in turn distributes over list concatenation |
| Strings.InsertedTrans | lita-cryptocrat/lib/lita/handlers/cryptocrat.rb:104-105 | inserting commas into a text that already had commas inserted still only inserts commas |
| Strings.InsertedReverse | lita-cryptocrat/lib/lita/handlers/cryptocrat.rb:103-106 | reading both texts backwards keeps the relation that one is the other with commas inserted |
| Commas.Scan | lita-cryptocrat/lib/lita/handlers/cryptocrat.rb:104 | one `gsub!` pass only lengthens the text; it reports a substitution exactly when the text grew; without one the text is unchanged; the first character is kept |
| Commas.ScanShrinksDigitPairs | lita-cryptocrat/lib/lita/handlers/cryptocrat.rb:104-105 | a pass never adds a pair of adjacent digits, and a pass that substitutes removes one: the loop terminates |
| Commas.GroupAll | lita-cryptocrat/lib/lita/handlers/cryptocrat.rb:104-105 | the loop stops at a text on which a further pass substitutes nothing |
| Commas.DecPartEmpty | lita-cryptocrat/lib/lita/handlers/cryptocrat.rb:102-103 | the fraction part is empty exactly when the string has no '.' |
| Commas.SplitAtDot | lita-cryptocrat/lib/lita/handlers/cryptocrat.rb:102-103 | `$1` runs up to the first '.', and `$2` starts at it |
| Commas.NoNewlineSplitsWhole | lita-cryptocrat/lib/lita/handlers/cryptocrat.rb:102-103 | without a newline the integer part and the fraction part together are the whole string |
| Commas.IntPart | lita-cryptocrat/lib/lita/handlers/cryptocrat.rb:102-103 | `$1` holds no '.' |
| Commas.DecPart | lita-cryptocrat/lib/lita/handlers/cryptocrat.rb:102-103 | `$2 ? $2 : ""` is empty or starts with the '.', and holds no newline |
| Commas.Before | lita-cryptocrat/lib/lita/handlers/cryptocrat.rb:102-103 | the text before the first occurrence of a character holds no occurrence of it |
| Commas.BeforeSplit | lita-cryptocrat/lib/lita/handlers/cryptocrat.rb:102-103 | a text without the character, followed by the character, has that text before its first occurrence |
| Commas.Commas | lita-cryptocrat/lib/lita/handlers/cryptocrat.rb:101-107 | the method with the `while gsub!` loop returns the value `CommasOf` specifies, nil giving "" |
| Commas.CommasOf | lita-cryptocrat/lib/lita/handlers/cryptocrat.rb:101-107 | the value `commas` returns; nil gives "" (its grouping, fraction and idempotence properties are the lemmas below) |
| Commas.GroupAllSignedDigits | lita-cryptocrat/lib/lita/handlers/cryptocrat.rb:103-106 | on the reversed integer part made of an optional '-' and digits, the loop leaves the grouped form of the digits |
| Commas.CommasGroupsThousands | lita-cryptocrat/lib/lita/handlers/cryptocrat.rb:101-106 | an optional '-', digits and a fraction part come out as the sign, the grouped digits and the same fraction part; three digits or fewer are unchanged |
| Commas.GroupKeepsDigits | lita-cryptocrat/lib/lita/handlers/cryptocrat.rb:104-106 | deleting the commas of the grouped form gives back the digits in order |
| Commas.GroupCommaPositions | lita-cryptocrat/lib/lita/handlers/cryptocrat.rb:104-106 | the grouped form of n >= 1 digits is (n-1)/3 characters longer, has a comma at every fourth position from the right and nowhere else, and neither starts nor ends with a comma |
| Commas.GroupCommaCount | lita-cryptocrat/lib/lita/handlers/cryptocrat.rb:104-106 | n >= 1 digits get exactly (n-1)/3 commas |
| Commas.ScanOnlyInsertsCommas | lita-cryptocrat/lib/lita/handlers/cryptocrat.rb:104 | a pass only inserts commas: the text's own commas and all its other characters stay in order (each match re-emits `\1` and its digits), so deleting every comma gives the same text as before the pass |
| Commas.GroupAllOnlyInsertsCommas | lita-cryptocrat/lib/lita/handlers/cryptocrat.rb:104-105 | the whole loop only inserts commas: the text's own commas stay where they were |
| Commas.CommasOnlyInsertsCommas | lita-cryptocrat/lib/lita/handlers/cryptocrat.rb:102-106 | the result is the input with commas inserted, its own commas kept; deleting every comma gives the input with its commas deleted, or the input itself when it had none |
| Commas.CommasKeepsFraction | lita-cryptocrat/lib/lita/handlers/cryptocrat.rb:102-106 | the fraction part, from the first '.' to the next newline, ends the result unchanged |
| Commas.CommasIdempotent | lita-cryptocrat/lib/lita/handlers/cryptocrat.rb:104-106 | applying `commas` to its own result changes nothing |
| Commas.CommasLeavesGroupedUnchanged | lita-cryptocrat/lib/lita/handlers/cryptocrat.rb:104-106 | a value already in grouped form, such as "1,234,567.89", comes back unchanged |
| Commas.GroupExamples | lita-cryptocrat/lib/lita/handlers/cryptocrat.rb:104-106 | "1234" groups as "1,234" and "1234567" as "1,234,567" |
| Commas.CommasSevenDigits | lita-cryptocrat/lib/lita/handlers/cryptocrat.rb:101-107 | "1234567" becomes "1,234,567" |
| Commas.CommasNegative | lita-cryptocrat/lib/lita/handlers/cryptocrat.rb:101-107 | "-1234" becomes "-1,234" |
| Commas.CommasShort | lita-cryptocrat/lib/lita/handlers/cryptocrat.rb:101-107 | "123.45" is unchanged |
| Percent.ToFPositiveIsValue | lita-cryptocrat/lib/lita/handlers/cryptocrat.rb:110-111 | the text test `ToFPositive` for `to_f > 0` holds exactly when the decimal value read is positive |
| Percent.Leading | lita-cryptocrat/lib/lita/handlers/cryptocrat.rb:110 | the digits `to_f` reads are all decimal digits; which prefix it reads is stated by the three lemmas below |
| Percent.LeadingSkipsSpace | lita-cryptocrat/lib/lita/handlers/cryptocrat.rb:110 | leading white space is skipped up to the first other character |
| Percent.LeadingWithDot | lita-cryptocrat/lib/lita/handlers/cryptocrat.rb:110 | white space, an optional sign, digits, a '.', digits and text that does not continue the number read as that sign and the integer digits followed by the fraction digits |
| Percent.LeadingNoDot | lita-cryptocrat/lib/lita/handlers/cryptocrat.rb:110 | the same without a '.': the sign and the integer digits; with neither sign nor digit, nothing is read (the empty, non-negative value) |
| Percent.Percent | lita-cryptocrat/lib/lita/handlers/cryptocrat.rb:109-112 | "+" and the string exactly when the value read is positive, the string unchanged otherwise; nil stays nil |
| Percent.PercentShape | lita-cryptocrat/lib/lita/handlers/cryptocrat.rb:111 | the result is the input or "+" followed by the input, and always ends with the input |
| Percent.PercentNegative | lita-cryptocrat/lib/lita/handlers/cryptocrat.rb:110-111 | a value with a leading '-' never gets a '+' |
| Percent.PercentZero | lita-cryptocrat/lib/lita/handlers/cryptocrat.rb:110-111 | a zero value such as "0", "0.00" or "-0.0" reads as zero and gets no '+' |
| Percent.PercentExamples | lita-cryptocrat/lib/lita/handlers/cryptocrat.rb:109-112 | "3.5" becomes "+3.5"; "-2.1", "0" and nil are unchanged |
| Handlers.WantsPrivate | lita-cryptocrat/lib/lita/handlers/cryptocrat.rb:29 | the reply is private exactly when a '-' directly followed by a 'p' occurs in the message; lines 59 and 92 make the same test |
| Handlers.DashPAt | lita-cryptocrat/lib/lita/handlers/cryptocrat.rb:29 | "-p" occurs at a position exactly when a '-' there is followed by a 'p' |
| Handlers.FirstBangFrom | lita-cryptocrat/lib/lita/handlers/cryptocrat.rb:7 | the leftmost start of a `/![A-Z]{1,5}/` match, or none when there is no match |
| Handlers.UpperRun | lita-cryptocrat/lib/lita/handlers/cryptocrat.rb:7 | the greedy `[A-Z]{1,5}`: a prefix of upper-case letters, at most the bound, stopped only by the bound, the end or a non-capital |
| Handlers.CoinSymbol | lita-cryptocrat/lib/lita/handlers/cryptocrat.rb:67 | no coin exactly when the message has no match; otherwise the letters of the leftmost match |
| Handlers.CoinSymbolShape | lita-cryptocrat/lib/lita/handlers/cryptocrat.rb:67 | the coin is one to five upper-case letters |
| Handlers.CoinSymbolExamples | lita-cryptocrat/lib/lita/handlers/cryptocrat.rb:67 | "!BTC" names BTC; "a!b" names no coin |
| Handlers.CoinSymbolLongExample | lita-cryptocrat/lib/lita/handlers/cryptocrat.rb:67 | "!ABCDEFG" names ABCDE: at most five letters are taken |
| Handlers.FindOr | lita-cryptocrat/lib/lita/handlers/cryptocrat.rb:21-22 | `find ... \|\| default`: the first element satisfying the test, or the default when none does |
| Handlers.FirstOrUnique | lita-cryptocrat/lib/lita/handlers/cryptocrat.rb:21-22 | that description determines a single value |
| Handlers.SelectPriceArgs | lita-cryptocrat/lib/lita/handlers/cryptocrat.rb:20-22 | the coin is the first argument, or nil when there is none; the currency and the exchange are the first of the remaining arguments with an upper-case or a lower-case letter (`HasUpper` and `HasLower`, the tests `/[A-Z]+/` and `/[a-z]+/`), or "USD" and "CCCAGG" |
| Handlers.PriceArgsDefaults | lita-cryptocrat/lib/lita/handlers/cryptocrat.rb:20-22 | no arguments, or the coin alone, give USD and CCCAGG |
| Handlers.PriceArgsInOrder | lita-cryptocrat/lib/lita/handlers/cryptocrat.rb:20-22 | "BTC EUR kraken" gives coin BTC, currency EUR and exchange kraken |
| Handlers.PriceArgsShared | lita-cryptocrat/lib/lita/handlers/cryptocrat.rb:20-22 | one argument such as "Kraken" can be both the currency and the exchange, and "-p" can be the exchange |
| Handlers.PriceText | lita-cryptocrat/lib/lita/handlers/cryptocrat.rb:27 | the reply is the coin and ": ", then the quote for the currency (empty when it is missing), then the currency |
| Handlers.PriceTextCoin | lita-cryptocrat/lib/lita/handlers/cryptocrat.rb:27 | the text before the first ':' of the reply is the coin, when the coin holds no ':' |
| Handlers.PriceUrl | lita-cryptocrat/lib/lita/handlers/cryptocrat.rb:24 | the URL is exactly as long as the endpoint, the coin, `&tsyms=`, the currency, `&e=` and the exchange; it begins with the price endpoint; the coin reads back as `fsym` and the currency as `tsyms` when they hold no '&'; `&tsyms=` follows the coin; the URL ends with the exchange as `e` |
| Handlers.PriceUrlParts | lita-cryptocrat/lib/lita/handlers/cryptocrat.rb:24 | the same positions for a URL built that way on any endpoint |
| Handlers.Price | lita-cryptocrat/lib/lita/handlers/cryptocrat.rb:19-34 | the method that shifts the coin off the arguments sends the URL with the selected coin, currency and exchange, and replies with that text on the channel `-p` asks for |
| Handlers.TargetSymbols | lita-cryptocrat/lib/lita/handlers/cryptocrat.rb:68-69 | the coin is not among the targets, and every other currency is a target exactly when it is one of USD, ETH and BTC |
| Handlers.TargetSymbolsCases | lita-cryptocrat/lib/lita/handlers/cryptocrat.rb:68-69 | USD, ETH or BTC as the coin leaves the other two in order; any other coin keeps all three |
| Handlers.TargetSymbolsTable | lita-cryptocrat/lib/lita/handlers/cryptocrat.rb:68-70 | the `tsyms` in the URL is "ETH,BTC", "USD,BTC", "USD,ETH" or "USD,ETH,BTC" accordingly |
| Handlers.CoinInfoUrl | lita-cryptocrat/lib/lita/handlers/cryptocrat.rb:70 | the URL begins with the multi-price endpoint; the coin reads back as `fsyms` when it holds no '&'; right after the coin comes `&tsyms=` and the target list joined by ',', and nothing else, as the length states |
| Handlers.PriceIn | lita-cryptocrat/lib/lita/handlers/cryptocrat.rb:78-80 | a price is there exactly when the answer has a record for the currency, and it holds no space |
| Handlers.Segment | lita-cryptocrat/lib/lita/handlers/cryptocrat.rb:88-89 | an optional price contributes "/" and the price, or nothing |
| Handlers.TailTextIsJoin | lita-cryptocrat/lib/lita/handlers/cryptocrat.rb:90 | the fixed end of the reply (`TailText`) is its last eleven words (`TailWords`) joined by single spaces |
| Handlers.CoinInfoTextIsJoin | lita-cryptocrat/lib/lita/handlers/cryptocrat.rb:87-90 | the text built by appending, with `SegmentText` for each optional price, is the reply's words (`Words`) joined by single spaces |
| Handlers.CoinInfoWords | lita-cryptocrat/lib/lita/handlers/cryptocrat.rb:77-90 | the reply has 13 words plus two for each of ETH and BTC present in the answer; it starts with the coin and a colon, then the USD price without spaces; each of ETH and BTC present contributes "/" and its `PRICE` without spaces, in that order; its last eleven words are "-", "MC:", the market cap, "-", "H:", the 24-hour high, "/", "L:", the 24-hour low, "/" and the signed 24-hour change with '%', the three values without spaces |
| Handlers.CoinInfo | lita-cryptocrat/lib/lita/handlers/cryptocrat.rb:66-97 | the method yields the targets without the coin, the URL naming them, and the reply made of the words of the answer on the channel `-p` asks for |
| Handlers.WordsRoundTrip | lita-cryptocrat/lib/lita/handlers/cryptocrat.rb:87-90 | splitting the reply at its spaces gives back its words; there are 13 of them, plus 2 for each of ETH and BTC that is present |
| Handlers.CoinInfoRoundTrip | lita-cryptocrat/lib/lita/handlers/cryptocrat.rb:78-90 | the same for the reply to an answer: the ETH and BTC segments are there exactly when the answer has those records |
| Handlers.Block | lita-cryptocrat/lib/lita/handlers/cryptocrat.rb:53-56 | the four lines for one coin, each ended by a newline, with an empty line after them: the block ends in an empty line |
| Handlers.HeaderLine | lita-cryptocrat/lib/lita/handlers/cryptocrat.rb:44-53 | the first line (name, symbol, USD and BTC prices through `commas`) holds no newline when those fields hold none |
| Handlers.ChangeLine | lita-cryptocrat/lib/lita/handlers/cryptocrat.rb:49-54 | the second line (the three changes through `percent`) holds no newline when the changes hold none |
| Handlers.CapLine | lita-cryptocrat/lib/lita/handlers/cryptocrat.rb:46-55 | the market-cap line holds no newline when the value holds none |
| Handlers.SupplyLine | lita-cryptocrat/lib/lita/handlers/cryptocrat.rb:47-56 | the supply line holds no newline when the available and maximal supply hold none |
| Handlers.HeaderText | lita-cryptocrat/lib/lita/handlers/cryptocrat.rb:53 | the fixed parts of the first line hold no newline: the line holds one exactly when a field does |
| Handlers.ChangeText | lita-cryptocrat/lib/lita/handlers/cryptocrat.rb:54 | the same for the change line |
| Handlers.CapText | lita-cryptocrat/lib/lita/handlers/cryptocrat.rb:55 | the same for the market-cap line |
| Handlers.SupplyText | lita-cryptocrat/lib/lita/handlers/cryptocrat.rb:56 | the same for the supply line |
| Handlers.BlockText | lita-cryptocrat/lib/lita/handlers/cryptocrat.rb:53-56 | four lines, each ended by a newline, then an empty line: the text ends in an empty line |
| Handlers.BlockTextIsJoin | lita-cryptocrat/lib/lita/handlers/cryptocrat.rb:53-56 | a block is its four lines and two empty pieces joined by newlines |
| Handlers.BlockTextRoundTrip | lita-cryptocrat/lib/lita/handlers/cryptocrat.rb:53-56 | splitting a block at its newlines gives back its four lines and two empty pieces, when no line holds a newline |
| Handlers.FormattedSingleLine | lita-cryptocrat/lib/lita/handlers/cryptocrat.rb:101-112 | `commas` and `percent` put no newline into a value that has none |
| Handlers.BlockRoundTrip | lita-cryptocrat/lib/lita/handlers/cryptocrat.rb:53-56 | splitting a coin's block at its newlines gives back the header, change, market-cap and supply lines in order, then two empty pieces, when no field holds a newline |
| Handlers.Blocks | lita-cryptocrat/lib/lita/handlers/cryptocrat.rb:41-57 | an empty coin list gives ""; any other list gives a text ending in an empty line |
| Handlers.BlocksAppend | lita-cryptocrat/lib/lita/handlers/cryptocrat.rb:43-57 | the message for a list is the message for its first part followed by the message for the rest |
| Handlers.BlocksOne | lita-cryptocrat/lib/lita/handlers/cryptocrat.rb:43-57 | each coin contributes its own block at its place in the list |
| Handlers.TopUrl | lita-cryptocrat/lib/lita/handlers/cryptocrat.rb:37-38 | the `limit` parameter is the first argument, or 5 when there is none |
| Handlers.Top | lita-cryptocrat/lib/lita/handlers/cryptocrat.rb:36-64 | the method with the loop sends the URL with the limit (the first argument, or 5) and replies with the blocks of the coins in order, on the channel `-p` asks for |

## Left out

- `HTTParty.get` and `JSON.parse` (network I/O and a foreign library): each parsed answer is a parameter. A price in the `.price` answer is given as the text Ruby prints for it, so `Float#to_s` is not modelled.
- The Lita framework: `route`, `Lita.register_handler`, `response.args`, `response.match_data`, `reply` and `reply_privately`. The arguments are a `seq<string>`, the message body a `string`, and the reply a `Reply` value.
- The routes' own regexes `/^top/` and `/price/`, which decide which handler runs: the model starts inside each handler.
- `lita_config.rb`, which is configuration only.
- Percent.Percent: `String#to_f` is replaced by an exact test on the decimal prefix it reads (white space, sign, digits, '.', digits). Exponents, underscores and floating-point underflow of tiny values to 0.0 are not modelled.
- General regular-expression semantics: only the patterns the handler uses are written out.
- Crashes on missing JSON keys, for example `info['USD']` being nil when the coin is USD: `CoinInfo` and `CoinInfoWords` require `HasFields`. `CoinInfo` also requires a match of `/![A-Z]{1,5}/`, since the framework only calls the handler on one.
- The ฿ literal on line 53 is kept as the three characters U+00E0 U+00B8 U+00BF, which is how the source file spells it.
- SelectPriceArgs: relies on `response.args` returning the same Array on every call, so that the `shift` on line 20 removes the coin before the searches on lines 21-22. Lita's `Message#args` is not part of this model; if it splits the message afresh on each call, the searches also see the coin, and `.price BTC EUR` picks the currency BTC.
- `commas` on strings holding a newline after the '.': `.*` stops there, so what follows is dropped. The model keeps this; properties about the fraction part are stated for fraction parts without a newline.

## Behaviour worth knowing

- The exchange of `.price` is the first remaining argument with a lower-case letter, used as written.
- `!SYM` uses only the first match of `/![A-Z]{1,5}/` in the message. Only upper-case symbols match.
- `.price` always asks for the live price.
- `.price` with no argument has a nil coin, which the URL and the reply interpolate as "".
