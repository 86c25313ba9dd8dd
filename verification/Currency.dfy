/** Conversion between currencies over a list of markets, directly or through
    bitcoin (app/lib/__currency.php), with exact amounts. */
module Currency {
  import opened Js

  datatype Market = Market(marketId: string, baseCurrency: string, quoteCurrency: string, last: real)

  /** An amount, `false` when no route exists, or one of the error codes. */
  datatype Outcome = Amount(volume: real) | NoRoute | Code(code: int)

  const BTC := "BTC"

  function Canonical(currency: string): string {
    if currency == "USDT" then "USD" else currency
  }

  predicate IsDirect(m: Market, from: string, to: string) {
    m.last > 0.0 && (m.marketId == from + "_" + to || m.marketId == to + "_" + from)
  }

  /** Does a market trade exactly these two currencies? */
  predicate Trades(m: Market, a: string, b: string) {
    (m.baseCurrency == a && m.quoteCurrency == b) || (m.baseCurrency == b && m.quoteCurrency == a)
  }

  predicate LinksBtc(m: Market, currency: string) {
    && m.last > 0.0
    && Trades(m, currency, BTC)
  }

  function FirstDirect(markets: seq<Market>, from: string, to: string): Option<Market> {
    if markets == [] then None
    else if IsDirect(markets[0], from, to) then Some(markets[0])
    else FirstDirect(markets[1..], from, to)
  }

  function Links(markets: seq<Market>, currency: string): (routes: seq<Market>)
    ensures forall i | 0 <= i < |routes| :: routes[i].last > 0.0
  {
    if markets == [] then []
    else (if LinksBtc(markets[0], currency) then [markets[0]] else []) + Links(markets[1..], currency)
  }

  function FirstLink(markets: seq<Market>, currency: string): (m: Option<Market>)
    ensures m == if Links(markets, currency) == [] then None else Some(Links(markets, currency)[0])
    ensures m.Some? ==> LinksBtc(m.value, currency)
  {
    if markets == [] then None
    else if LinksBtc(markets[0], currency) then Some(markets[0])
    else FirstLink(markets[1..], currency)
  }

  /** The first leg of a route, from a currency to bitcoin. */
  function FirstLeg(volume: real, route: Market): real
    requires route.last > 0.0
  {
    if route.baseCurrency == BTC then volume * (1.0 / route.last) else volume * route.last
  }

  /** The last leg, on the market chosen. */
  function LastLeg(volume: real, market: Market, to: string): Outcome {
    if market.last == 0.0 then Code(-2)
    else if volume == 0.0 then Code(-3)
    else if market.baseCurrency == to then Amount(volume * (1.0 / market.last))
    else if market.quoteCurrency == to then Amount(volume * market.last)
    else Code(-4)
  }

  /** What `convert_to_raw` returns. */
  function Converted(from: string, volume: real, to: string, markets: seq<Market>): Outcome {
    if volume == 0.0 then Amount(0.0)
    else if from == to then Amount(volume)
    else if markets == [] then Amount(0.0)
    else
      var f, t := Canonical(from), Canonical(to);
      match FirstDirect(markets, f, t)
      case Some(m) => LastLeg(volume, m, t)
      case None =>
        match (FirstLink(markets, f), FirstLink(markets, t))
        case (Some(route), Some(m)) => LastLeg(FirstLeg(volume, route), m, t)
        case _ => NoRoute
  }

  method FindDirect(markets: seq<Market>, from: string, to: string) returns (found: Option<Market>)
    ensures found == FirstDirect(markets, from, to)
  {
    found := None;
    var i := 0;
    assert markets[0..] == markets;
    while i < |markets|
      invariant i <= |markets| && found.None?
      invariant FirstDirect(markets, from, to) == FirstDirect(markets[i..], from, to)
    {
      var x := markets[i];
      if x.last > 0.0 && (x.marketId == from + "_" + to || x.marketId == to + "_" + from) { return Some(x); }
      assert markets[i..][1..] == markets[i + 1..];
      i := i + 1;
    }
  }

  lemma LinksStep(markets: seq<Market>, i: nat, from: string)
    requires i <= |markets|
    ensures Links(markets[i..], from) ==
            if i == |markets| then []
            else (if LinksBtc(markets[i], from) then [markets[i]] else []) + Links(markets[i + 1..], from)
  {
    assert i < |markets| ==> markets[i..][1..] == markets[i + 1..];
  }

  method CollectRoutes(markets: seq<Market>, from: string) returns (routes: seq<Market>)
    ensures routes == Links(markets, from)
  {
    hide Links;
    routes := [];
    var i := 0;
    assert markets[0..] == markets;
    while i < |markets|
      invariant i <= |markets| && Links(markets, from) == routes + Links(markets[i..], from)
    {
      var x := markets[i];
      LinksStep(markets, i, from);
      if x.last > 0.0 {
        if x.baseCurrency == from && x.quoteCurrency == BTC {
          routes := routes + [x];
        } else if x.baseCurrency == BTC && x.quoteCurrency == from {
          routes := routes + [x];
        }
      }
      i := i + 1;
    }
    LinksStep(markets, i, from);
  }

  method FindLink(markets: seq<Market>, to: string) returns (found: Option<Market>)
    ensures found == FirstLink(markets, to)
  {
    found := None;
    var i := 0;
    assert markets[0..] == markets;
    while i < |markets|
      invariant i <= |markets| && found.None?
      invariant FirstLink(markets, to) == FirstLink(markets[i..], to)
    {
      var x := markets[i];
      if x.last > 0.0 {
        if x.baseCurrency == to && x.quoteCurrency == BTC { return Some(x); }
        if x.baseCurrency == BTC && x.quoteCurrency == to { return Some(x); }
      }
      assert markets[i..][1..] == markets[i + 1..];
      i := i + 1;
    }
  }

  /** The loop over the routes: the first one is taken, or none is. */
  method FollowRoutes(volume: real, routes: seq<Market>, to: string, markets: seq<Market>)
    returns (v: real, xmarket: Option<Market>)
    requires forall i | 0 <= i < |routes| :: routes[i].last > 0.0
    ensures xmarket == if routes == [] then None else FirstLink(markets, to)
    ensures v == if xmarket.None? then volume else FirstLeg(volume, routes[0])
  {
    v, xmarket := volume, None;
    var i := 0;
    while i < |routes|
      invariant i <= |routes| && xmarket.None? && v == volume
      invariant i > 0 ==> FirstLink(markets, to).None?
    {
      xmarket := FindLink(markets, to);
      if xmarket.Some? {
        var row := routes[i];
        v := if row.baseCurrency == BTC then v * (1.0 / row.last) else v * row.last;
        return;
      }
      i := i + 1;
    }
  }

  method ApplyRate(v: real, xmarket: Option<Market>, to: string) returns (r: Outcome)
    ensures r == if xmarket.None? then Code(-1) else LastLeg(v, xmarket.value, to)
  {
    if xmarket.None? { return Code(-1); }
    var rate := xmarket.value.last;
    if rate == 0.0 { return Code(-2); }
    if v == 0.0 { return Code(-3); }
    if xmarket.value.baseCurrency == to {
      r := Amount(v * (1.0 / rate));
    } else if xmarket.value.quoteCurrency == to {
      r := Amount(v * rate);
    } else {
      r := Code(-4);
    }
  }

  /** `convert_to_raw` */
  method ConvertToRaw(from: string, volume: real, to: string, markets: seq<Market>) returns (r: Outcome)
    ensures r == Converted(from, volume, to, markets)
  {
    hide FirstDirect, FirstLink, Links, FirstLeg, LastLeg;
    if volume == 0.0 { return Amount(0.0); }
    if from == to { return Amount(volume); }
    if markets == [] { return Amount(0.0); }
    var f := if from == "USDT" then "USD" else from;
    var t := if to == "USDT" then "USD" else to;
    var v := volume;
    var xmarket := FindDirect(markets, f, t);
    if xmarket.None? {
      var routes := CollectRoutes(markets, f);
      v, xmarket := FollowRoutes(v, routes, t, markets);
      if xmarket.None? { return NoRoute; }
    }
    r := ApplyRate(v, xmarket, t);
  }

  // Market ids.

  /** The market id names two different currencies without underscores. */
  predicate WellFormed(m: Market) {
    && m.marketId == m.baseCurrency + "_" + m.quoteCurrency
    && '_' !in m.baseCurrency && '_' !in m.quoteCurrency
    && m.baseCurrency != m.quoteCurrency
  }

  predicate AllWellFormed(markets: seq<Market>) {
    forall i | 0 <= i < |markets| :: WellFormed(markets[i])
  }

  lemma OneUnderscore(a: string, b: string, c: string, d: string)
    requires '_' !in c && '_' !in d
    ensures a + "_" + b == c + "_" + d <==> a == c && b == d
  {
    var s := a + "_" + b;
    if s == c + "_" + d {
      assert s[|a|] == '_' && forall i | 0 <= i < |s| && i != |c| :: s[i] != '_';
      assert a == s[..|a|] && b == s[|a| + 1..];
    }
  }

  function FirstUnderscore(link: string): (n: nat)
    ensures n <= |link| && (forall i | 0 <= i < n :: link[i] != '_') && (n < |link| ==> link[n] == '_')
  {
    if link == "" || link[0] == '_' then 0 else 1 + FirstUnderscore(link[1..])
  }

  /** `get_base_currency`; `strpos` gives `false`, that is 0, without underscore. */
  function GetBaseCurrency(link: string): string {
    var n := FirstUnderscore(link);
    if n == |link| then "" else link[..n]
  }

  /** `get_quote_currency` */
  function GetQuoteCurrency(link: string): string {
    var n := FirstUnderscore(link);
    if n < |link| then link[n + 1..] else if link == "" then "" else link[1..]
  }

  /** `get_reverse_currency_link` */
  function GetReverseCurrencyLink(link: string): string {
    GetQuoteCurrency(link) + "_" + GetBaseCurrency(link)
  }

  lemma PartsOfLink(a: string, b: string)
    requires '_' !in a
    ensures GetBaseCurrency(a + "_" + b) == a && GetQuoteCurrency(a + "_" + b) == b
  {
    var s := a + "_" + b;
    var n := FirstUnderscore(s);
    assert s[|a|] == '_' && s[..|a|] == a && s[|a| + 1..] == b;
    assert forall i | 0 <= i < |a| :: s[i] == a[i] && a[i] in a;
  }

  /** Without an underscore `strpos` gives `false`, which counts as position 0. */
  lemma LinkWithoutUnderscore(link: string)
    requires '_' !in link
    ensures GetBaseCurrency(link) == "" && GetQuoteCurrency(link) == if |link| == 0 then "" else link[1..]
  {
    assert forall i | 0 <= i < |link| :: link[i] != '_';
  }

  /** The two ids a direct market may have are reverse links of each other, and
      the helpers recover the columns of the market from its id. */
  lemma ReverseLink(m: Market)
    requires WellFormed(m)
    ensures GetBaseCurrency(m.marketId) == m.baseCurrency && GetQuoteCurrency(m.marketId) == m.quoteCurrency
    ensures GetReverseCurrencyLink(GetReverseCurrencyLink(m.marketId)) == m.marketId
    ensures forall f, t :: IsDirect(m, f, t) <==>
              m.last > 0.0 && (m.marketId == f + "_" + t || GetReverseCurrencyLink(m.marketId) == f + "_" + t)
  {
    PartsOfLink(m.baseCurrency, m.quoteCurrency);
    PartsOfLink(m.quoteCurrency, m.baseCurrency);
    forall f, t
      ensures IsDirect(m, f, t) <==>
        m.last > 0.0 && (m.marketId == f + "_" + t || GetReverseCurrencyLink(m.marketId) == f + "_" + t)
    {
      OneUnderscore(t, f, m.baseCurrency, m.quoteCurrency);
      OneUnderscore(f, t, m.quoteCurrency, m.baseCurrency);
    }
  }

  // Rates.

  /** What one unit of `currency` is worth in the other currency of the market. */
  function Price(m: Market, currency: string): (p: real)
    requires m.last > 0.0
    ensures p > 0.0
  {
    if m.baseCurrency == currency then m.last else 1.0 / m.last
  }

  lemma {:induction false} DirectTrades(markets: seq<Market>, from: string, to: string)
    requires AllWellFormed(markets)
    ensures var m := FirstDirect(markets, from, to);
            m.Some? ==> m.value.last > 0.0 && WellFormed(m.value) && Trades(m.value, from, to) && from != to
    ensures FirstDirect(markets, from, to) == FirstDirect(markets, to, from)
    ensures to == BTC ==> FirstDirect(markets, from, to) == FirstLink(markets, from)
  {
    if markets != [] {
      var m := markets[0];
      OneUnderscore(from, to, m.baseCurrency, m.quoteCurrency);
      OneUnderscore(to, from, m.baseCurrency, m.quoteCurrency);
      DirectTrades(markets[1..], from, to);
    }
  }

  lemma {:induction false} LinkIsWellFormed(markets: seq<Market>, currency: string)
    requires AllWellFormed(markets)
    ensures var m := FirstLink(markets, currency); m.Some? ==> WellFormed(m.value) && currency != BTC
  {
    if markets != [] && !LinksBtc(markets[0], currency) {
      LinkIsWellFormed(markets[1..], currency);
    }
  }

  /** The rate between two currencies, if the markets give one. */
  function Rate(from: string, to: string, markets: seq<Market>): (rate: Option<real>)
    ensures rate.Some? ==> rate.value > 0.0
  {
    var f, t := Canonical(from), Canonical(to);
    match FirstDirect(markets, f, t)
    case Some(m) => if m.last > 0.0 then Some(Price(m, f)) else None
    case None =>
      match (FirstLink(markets, f), FirstLink(markets, t))
      case (Some(route), Some(m)) =>
        PositiveProduct(Price(route, f), Price(m, BTC));
        Some(Price(route, f) * Price(m, BTC))
      case _ => None
  }

  lemma PositiveProduct(a: real, b: real)
    requires a > 0.0 && b > 0.0
    ensures a * b > 0.0
  {
  }

  lemma LastLegByPrice(volume: real, m: Market, from: string, to: string)
    requires m.last > 0.0 && Trades(m, from, to) && from != to && volume != 0.0
    ensures LastLeg(volume, m, to) == Amount(volume * Price(m, from))
  {
  }

  lemma FirstLegByPrice(volume: real, m: Market, from: string)
    requires m.last > 0.0 && Trades(m, from, BTC) && from != BTC && volume != 0.0
    ensures FirstLeg(volume, m) == volume * Price(m, from) != 0.0
  {
    NonZeroProduct(volume, Price(m, from));
  }

  /** Conversion multiplies by the rate, and never returns an error code. */
  lemma ConvertedByRate(from: string, volume: real, to: string, markets: seq<Market>)
    requires AllWellFormed(markets)
    ensures Converted(from, volume, to, markets) ==
            if from == to || volume == 0.0 then Amount(volume)
            else if markets == [] then Amount(0.0)
            else match Rate(from, to, markets) case Some(rate) => Amount(volume * rate) case None => NoRoute
  {
    hide AllWellFormed, WellFormed, FirstDirect, FirstLink, Links, Canonical, FirstLeg, LastLeg, Price;
    var f, t := Canonical(from), Canonical(to);
    DirectTrades(markets, f, t);
    LinkIsWellFormed(markets, f);
    LinkIsWellFormed(markets, t);
    if volume != 0.0 {
      if FirstDirect(markets, f, t).Some? {
        LastLegByPrice(volume, FirstDirect(markets, f, t).value, f, t);
      } else if FirstLink(markets, f).Some? && FirstLink(markets, t).Some? {
        var route, m := FirstLink(markets, f).value, FirstLink(markets, t).value;
        FirstLegByPrice(volume, route, f);
        LastLegByPrice(FirstLeg(volume, route), m, BTC, t);
        ProductAssociates(volume, Price(route, f), Price(m, BTC));
      }
    }
  }

  lemma NonZeroProduct(a: real, b: real)
    requires a != 0.0 && b > 0.0
    ensures a * b != 0.0
  {
  }

  lemma ProductAssociates(a: real, b: real, c: real)
    ensures a * b * c == a * (b * c)
  {
  }

  lemma PricesAreInverse(m: Market, a: string, b: string)
    requires m.last > 0.0 && Trades(m, a, b) && a != b
    ensures Price(m, a) * Price(m, b) == 1.0
  {
  }

  /** There and back, the rates cancel out. */
  lemma RatesAreInverse(from: string, to: string, markets: seq<Market>)
    requires AllWellFormed(markets)
    ensures Rate(from, to, markets).Some? <==> Rate(to, from, markets).Some?
    ensures Rate(from, to, markets).Some? ==> Rate(from, to, markets).value * Rate(to, from, markets).value == 1.0
  {
    hide AllWellFormed, WellFormed, FirstDirect, FirstLink, Links, Canonical, Price;
    var f, t := Canonical(from), Canonical(to);
    DirectTrades(markets, f, t);
    LinkIsWellFormed(markets, f);
    LinkIsWellFormed(markets, t);
    match FirstDirect(markets, f, t) {
      case Some(m) => PricesAreInverse(m, f, t);
      case None =>
        if FirstLink(markets, f).Some? && FirstLink(markets, t).Some? {
          var r, m := FirstLink(markets, f).value, FirstLink(markets, t).value;
          PricesAreInverse(r, f, BTC);
          PricesAreInverse(m, t, BTC);
          ProductOfInverses(Price(r, f), Price(r, BTC), Price(m, t), Price(m, BTC));
        }
    }
  }

  lemma ProductOfInverses(a: real, a': real, b: real, b': real)
    requires a * a' == 1.0 && b * b' == 1.0
    ensures (a * b') * (b * a') == 1.0
  {
    calc {
      (a * b') * (b * a');
      (a * a') * (b * b');
    }
  }

  lemma RatesCancel(volume: real, a: real, b: real)
    requires a * b == 1.0
    ensures volume * a * b == volume
  {
    var p := a * b;
    ProductAssociates(volume, a, b);
    assert volume * p == volume;
  }

  /** Is there a market between the two currencies, or one to bitcoin for each? */
  predicate HasRoute(from: string, to: string, markets: seq<Market>) {
    var f, t := Canonical(from), Canonical(to);
    from == to || FirstDirect(markets, f, t).Some? || (FirstLink(markets, f).Some? && FirstLink(markets, t).Some?)
  }

  /** Converting there and back over the same markets returns the amount, exactly
      when there is a route. */
  lemma RoundTrip(from: string, volume: real, to: string, markets: seq<Market>)
    requires AllWellFormed(markets) && volume != 0.0
    ensures
      HasRoute(from, to, markets) <==>
      var there := Converted(from, volume, to, markets);
      there.Amount? && Converted(to, there.volume, from, markets) == Amount(volume)
  {
    hide AllWellFormed, WellFormed, FirstDirect, FirstLink, Links, Canonical, Converted, Price, Rate;
    RouteGivesRate(from, to, markets);
    ConvertedByRate(from, volume, to, markets);
    RatesAreInverse(from, to, markets);
    var there := Converted(from, volume, to, markets);
    if there.Amount? {
      ConvertedByRate(to, there.volume, from, markets);
      if from != to && Rate(from, to, markets).Some? {
        var rate, back := Rate(from, to, markets).value, Rate(to, from, markets).value;
        NonZeroProduct(volume, rate);
        RatesCancel(volume, rate, back);
        assert there.volume == volume * rate;
      }
    }
  }

  lemma RouteGivesRate(from: string, to: string, markets: seq<Market>)
    requires AllWellFormed(markets)
    ensures HasRoute(from, to, markets) <==> from == to || Rate(from, to, markets).Some?
    ensures Rate(from, to, markets).Some? ==> markets != []
  {
    DirectTrades(markets, Canonical(from), Canonical(to));
  }

  /** A route through bitcoin is the conversion to bitcoin, then from bitcoin. */
  lemma RouteIsTwoConversions(from: string, volume: real, to: string, markets: seq<Market>)
    requires AllWellFormed(markets) && from != to
    requires FirstDirect(markets, Canonical(from), Canonical(to)).None?
    ensures Converted(from, volume, to, markets) ==
            var inBtc := Converted(from, volume, BTC, markets);
            if inBtc.Amount? then Converted(BTC, inBtc.volume, to, markets) else inBtc
  {
    hide AllWellFormed, WellFormed, FirstDirect, FirstLink, Links, Converted, Price;
    var f, t := Canonical(from), Canonical(to);
    DirectTrades(markets, f, BTC);
    DirectTrades(markets, t, BTC);
    LinkIsWellFormed(markets, f);
    LinkIsWellFormed(markets, t);
    ConvertedByRate(from, volume, to, markets);
    ConvertedByRate(from, volume, BTC, markets);
    var inBtc := Converted(from, volume, BTC, markets);
    if inBtc.Amount? {
      ConvertedByRate(BTC, inBtc.volume, to, markets);
      if FirstLink(markets, f).Some? && FirstLink(markets, t).Some? && volume != 0.0 {
        var route, m := FirstLink(markets, f).value, FirstLink(markets, t).value;
        NonZeroProduct(volume, Price(route, f));
        ProductAssociates(volume, Price(route, f), Price(m, BTC));
      }
    }
  }

  // Which markets set the amount.

  lemma {:induction false} FirstDirectAt(markets: seq<Market>, k: nat, from: string, to: string)
    requires k < |markets| && IsDirect(markets[k], from, to)
    requires forall j | 0 <= j < k :: !IsDirect(markets[j], from, to)
    ensures FirstDirect(markets, from, to) == Some(markets[k])
  {
    if k > 0 {
      assert forall j | 0 <= j < k - 1 :: markets[1..][j] == markets[j + 1];
      FirstDirectAt(markets[1..], k - 1, from, to);
    }
  }

  lemma {:induction false} FirstLinkAt(markets: seq<Market>, k: nat, currency: string)
    requires k < |markets| && LinksBtc(markets[k], currency)
    requires forall j | 0 <= j < k :: !LinksBtc(markets[j], currency)
    ensures FirstLink(markets, currency) == Some(markets[k])
  {
    if k > 0 {
      assert forall j | 0 <= j < k - 1 :: markets[1..][j] == markets[j + 1];
      FirstLinkAt(markets[1..], k - 1, currency);
    }
  }

  lemma {:induction false} NoDirect(markets: seq<Market>, from: string, to: string)
    requires forall j | 0 <= j < |markets| :: !IsDirect(markets[j], from, to)
    ensures FirstDirect(markets, from, to).None?
  {
    if markets != [] { NoDirect(markets[1..], from, to); }
  }

  /** A live market with one of these two ids. */
  predicate Named(m: Market, from: string, to: string) {
    m.last > 0.0 && (m.marketId == from + "_" + to || m.marketId == to + "_" + from)
  }

  /** The first live market that is named after the two currencies sets the
      amount: its price is what a unit of its base costs in its quote. */
  lemma DirectMarketSetsAmount(from: string, volume: real, to: string, markets: seq<Market>, k: nat)
    requires from != to && from != "USDT" && to != "USDT" && volume != 0.0
    requires k < |markets| && Named(markets[k], from, to) && WellFormed(markets[k])
    requires forall j | 0 <= j < k :: !Named(markets[j], from, to)
    ensures Converted(from, volume, to, markets) ==
            Amount(if markets[k].baseCurrency == from then volume * markets[k].last
                   else volume * (1.0 / markets[k].last))
  {
    hide FirstDirect, FirstLink;
    var m := markets[k];
    FirstDirectAt(markets, k, from, to);
    OneUnderscore(from, to, m.baseCurrency, m.quoteCurrency);
    OneUnderscore(to, from, m.baseCurrency, m.quoteCurrency);
  }

  /** Without one, the first live markets that link the two currencies with
      bitcoin do: the one of the source first, then the one of the target. */
  lemma BitcoinMarketsSetAmount(from: string, volume: real, to: string, markets: seq<Market>, i: nat, j: nat)
    requires from != to && from !in {"USDT", "BTC"} && to !in {"USDT", "BTC"} && volume != 0.0
    requires forall k | 0 <= k < |markets| :: !Named(markets[k], from, to)
    requires i < |markets| && markets[i].last > 0.0 && Trades(markets[i], from, "BTC")
    requires forall k | 0 <= k < i :: markets[k].last > 0.0 ==> !Trades(markets[k], from, "BTC")
    requires j < |markets| && markets[j].last > 0.0 && Trades(markets[j], to, "BTC")
    requires forall k | 0 <= k < j :: markets[k].last > 0.0 ==> !Trades(markets[k], to, "BTC")
    ensures var inBtc := if markets[i].baseCurrency == from then volume * markets[i].last
                         else volume * (1.0 / markets[i].last);
            Converted(from, volume, to, markets) ==
            Amount(if markets[j].baseCurrency == to then inBtc * (1.0 / markets[j].last)
                   else inBtc * markets[j].last)
  {
    hide FirstDirect, FirstLink, LastLeg, FirstLeg;
    NoDirect(markets, from, to);
    FirstLinkAt(markets, i, from);
    FirstLinkAt(markets, j, to);
    FirstLegByPrice(volume, markets[i], from);
    LastLegByPrice(FirstLeg(volume, markets[i]), markets[j], "BTC", to);
  }

  /** Tethers are dollars. */
  lemma TethersAreDollars(other: string, volume: real, markets: seq<Market>)
    requires other != "USD" && other != "USDT"
    ensures Converted("USDT", volume, other, markets) == Converted("USD", volume, other, markets)
    ensures Converted(other, volume, "USDT", markets) == Converted(other, volume, "USD", markets)
  {
  }

  /** On any list of markets the only error code is -4, and it says that the
      direct market found does not name the target in its columns. */
  lemma OnlyMisnamedMarketsFail(from: string, volume: real, to: string, markets: seq<Market>)
    ensures Converted(from, volume, to, markets).Code? ==> Converted(from, volume, to, markets) == Code(-4)
    ensures
      Converted(from, volume, to, markets).Code? <==>
      var t := Canonical(to);
      var m := FirstDirect(markets, Canonical(from), t);
      && volume != 0.0 && from != to
      && m.Some? && m.value.baseCurrency != t && m.value.quoteCurrency != t
  {
    hide FirstDirect, FirstLink, Links, Canonical;
    var f, t := Canonical(from), Canonical(to);
    DirectIsLive(markets, f, t);
    if FirstLink(markets, f).Some? && volume != 0.0 {
      var route := FirstLink(markets, f).value;
      NonZeroProduct(volume, if route.baseCurrency == BTC then 1.0 / route.last else route.last);
    }
  }

  lemma {:induction false} DirectIsLive(markets: seq<Market>, from: string, to: string)
    ensures var m := FirstDirect(markets, from, to); m.Some? ==> m.value.last > 0.0 && markets != []
  {
    if markets != [] {
      DirectIsLive(markets[1..], from, to);
    }
  }
}
