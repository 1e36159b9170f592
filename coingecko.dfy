/** The price service's request planning and result merging
    (legacy/token-price/lib/coingecko.service.ts): which platform and
    contract address each requested token is priced under, the guard
    against too many requests, the grouping of tokens by platform into
    pages of at most `addressesPerRequest` addresses, the merge of the
    returned pages with the back-fill of original addresses, the native
    asset price, and the time window of a historical price request.

    The HTTP calls are an abstract `fetch` from a `Request` to the page of
    prices it returns; ethers' `isAddress` and `getAddress` (the EIP-55
    checksum) are uninterpreted functions held in an `AddressCodec`. */
module Coingecko {
  import opened Wrappers
  import opened Text
  import opened JsObject

  /** `twentyFourHoursInSecs` of modules/common/time. */
  const TwentyFourHoursInSecs: int := 86400

  /** The guard's bound on `addresses.length / addressesPerRequest`: at most
      this many full pages' worth of addresses per call. It bounds the
      addresses, not the requests, which are made per platform group
      (`GuardCountsAddresses`). */
  const MaxPagesWorth: int := 10

  datatype TokenDefinition = TokenDefinition(
    address: string,
    coingeckoPlatformId: Option<string>,
    coingeckoContractAddress: Option<string>)

  datatype MappedToken = MappedToken(platform: string, address: string, originalAddress: Option<string>)

  datatype Price = Price(usd: real)

  /** What an HTTP request to the price API asks for. */
  datatype Request =
    | TokenPriceRequest(platform: string, contractAddresses: seq<string>)
    | MarketChartRequest(platform: string, contractAddress: string, rangeStart: int, rangeEnd: int)

  /** What `getTokenPrices` throws: the rate-limit guard's error, or the
      RangeError of `Array(pageCount)` for a page count that is not a
      length. */
  datatype PriceError = TooManyRequests | InvalidArrayLength

  /** ethers' `isAddress` and `getAddress`. */
  datatype AddressCodec = AddressCodec(isAddress: string -> bool, getAddress: string -> string)

  /** A JavaScript string value is truthy when it is present and not empty. */
  predicate Truthy(s: Option<string>) {
    s.Some? && s.value != ""
  }

  /** The service's `getAddress`: checksummed when it is an address,
      unchanged otherwise. */
  function Normalize(codec: AddressCodec, address: string): string {
    if codec.isAddress(address) then codec.getAddress(address) else address
  }

  function Renamer(codec: AddressCodec): string -> string {
    address => Normalize(codec, address)
  }

  // ---------------------------------------------------------------------
  // getMappedTokenDetails

  predicate SameAddress(a: string, b: string) {
    Lower(a) == Lower(b)
  }

  /** The index of the first definition from `from` on whose address
      equals `address` up to case, or -1. */
  function FirstMatch(tokens: seq<TokenDefinition>, address: string, from: nat): (i: int)
    requires from <= |tokens|
    ensures i == -1 || from <= i < |tokens|
    decreases |tokens| - from
  {
    if from == |tokens| then -1
    else if SameAddress(tokens[from].address, address) then from
    else FirstMatch(tokens, address, from + 1)
  }

  lemma {:induction false} FirstMatchIs(tokens: seq<TokenDefinition>, address: string, from: nat)
    requires from <= |tokens|
    ensures var i := FirstMatch(tokens, address, from);
      && (i == -1 <==> forall j :: from <= j < |tokens| ==> !SameAddress(tokens[j].address, address))
      && (i != -1 ==> SameAddress(tokens[i].address, address)
                      && forall j :: from <= j < i ==> !SameAddress(tokens[j].address, address))
    decreases |tokens| - from
  {
    if from < |tokens| && !SameAddress(tokens[from].address, address) {
      FirstMatchIs(tokens, address, from + 1);
    }
  }

  /** `tokens.find(...)`: a definition whose address equals `address` up to case. */
  function FindDefinition(tokens: seq<TokenDefinition>, address: string): (r: Option<TokenDefinition>)
    ensures r.Some? ==> r.value in tokens && SameAddress(r.value.address, address)
    ensures r.None? <==> forall i :: 0 <= i < |tokens| ==> !SameAddress(tokens[i].address, address)
  {
    FirstMatchIs(tokens, address, 0);
    var i := FirstMatch(tokens, address, 0);
    if i == -1 then None else Some(tokens[i])
  }

  /** The definition found is the FIRST one whose address matches. */
  lemma FindDefinitionFirst(tokens: seq<TokenDefinition>, address: string)
    requires FindDefinition(tokens, address).Some?
    ensures exists i :: 0 <= i < |tokens| && tokens[i] == FindDefinition(tokens, address).value
                        && forall j :: 0 <= j < i ==> !SameAddress(tokens[j].address, address)
  {
    FirstMatchIs(tokens, address, 0);
    var i := FirstMatch(tokens, address, 0);
    assert tokens[i] == FindDefinition(tokens, address).value;
  }

  /** The definition, if any, under which `address` is priced on another
      platform: the first case-insensitive match, when it names both a
      platform and a contract address. */
  predicate Remapped(found: Option<TokenDefinition>) {
    found.Some? && Truthy(found.value.coingeckoPlatformId) && Truthy(found.value.coingeckoContractAddress)
  }

  function GetMappedTokenDetails(address: string, tokens: seq<TokenDefinition>, platformId: string,
                                 codec: AddressCodec): (r: MappedToken)
    ensures r.originalAddress.Some? <==> Remapped(FindDefinition(tokens, address))
  {
    var token := FindDefinition(tokens, address);
    if Remapped(token) then
      var contract := token.value.coingeckoContractAddress.value;
      MappedToken(token.value.coingeckoPlatformId.value,
                  if codec.isAddress(contract) then Lower(contract) else contract,
                  Some(Lower(address)))
    else
      MappedToken(platformId, Lower(address), None)
  }

  /** What the remapping promises: a token whose first case-insensitive
      definition names a platform and a contract is priced there, under the
      contract address (lower-cased exactly when it is an address), and
      remembers its own address in lower case; any other token is priced on
      the default platform under its lower-cased address. */
  lemma MappedTokenDetails(address: string, tokens: seq<TokenDefinition>, platformId: string, codec: AddressCodec)
    ensures var r := GetMappedTokenDetails(address, tokens, platformId, codec);
      && (r.originalAddress.Some? ==>
            exists i :: 0 <= i < |tokens|
              && SameAddress(tokens[i].address, address)
              && (forall j :: 0 <= j < i ==> !SameAddress(tokens[j].address, address))
              && Truthy(tokens[i].coingeckoPlatformId) && Truthy(tokens[i].coingeckoContractAddress)
              && r.platform == tokens[i].coingeckoPlatformId.value
              && r.address == (var contract := tokens[i].coingeckoContractAddress.value;
                               if codec.isAddress(contract) then Lower(contract) else contract)
              && r.originalAddress == Some(Lower(address)))
      && (r.originalAddress.None? ==> r == MappedToken(platformId, Lower(address), None))
  {
    if Remapped(FindDefinition(tokens, address)) {
      FindDefinitionFirst(tokens, address);
    }
  }

  /** A token no definition matches keeps the default platform. */
  lemma UnknownTokenStaysOnDefaultPlatform(address: string, tokens: seq<TokenDefinition>, platformId: string,
                                           codec: AddressCodec)
    requires forall i :: 0 <= i < |tokens| ==> !SameAddress(tokens[i].address, address)
    ensures GetMappedTokenDetails(address, tokens, platformId, codec) == MappedToken(platformId, Lower(address), None)
  {
  }

  lemma {:induction false} FirstMatchIgnoresCase(tokens: seq<TokenDefinition>, a: string, b: string, from: nat)
    requires from <= |tokens| && Lower(a) == Lower(b)
    ensures FirstMatch(tokens, a, from) == FirstMatch(tokens, b, from)
    decreases |tokens| - from
  {
    if from < |tokens| {
      FirstMatchIgnoresCase(tokens, a, b, from + 1);
    }
  }

  /** The mapping only sees the address in lower case (lines 133, 140 and
      146): two addresses that agree up to case map to the same token, and
      mapping an address already lower-cased changes nothing. */
  lemma MappingIgnoresCase(a: string, b: string, tokens: seq<TokenDefinition>, platformId: string, codec: AddressCodec)
    requires Lower(a) == Lower(b)
    ensures GetMappedTokenDetails(a, tokens, platformId, codec) == GetMappedTokenDetails(b, tokens, platformId, codec)
    ensures GetMappedTokenDetails(Lower(a), tokens, platformId, codec) == GetMappedTokenDetails(a, tokens, platformId, codec)
  {
    FirstMatchIgnoresCase(tokens, a, b, 0);
    LowerIdempotent(a);
    FirstMatchIgnoresCase(tokens, Lower(a), a, 0);
  }

  /** `addresses.map((address) => this.getMappedTokenDetails(address, tokenDefinitions))`. */
  function MapTokens(addresses: seq<string>, tokens: seq<TokenDefinition>, platformId: string,
                     codec: AddressCodec): (r: seq<MappedToken>)
    ensures |r| == |addresses|
    ensures forall i :: 0 <= i < |addresses| ==> r[i] == GetMappedTokenDetails(addresses[i], tokens, platformId, codec)
  {
    seq(|addresses|, i requires 0 <= i < |addresses| => GetMappedTokenDetails(addresses[i], tokens, platformId, codec))
  }

  // ---------------------------------------------------------------------
  // The rate-limit guard

  /** `addresses.length / addressesPerRequest > 10` in floating point:
      dividing a positive count by zero gives Infinity, zero by zero NaN,
      and a negative page size a quotient that is not positive. */
  predicate ExceedsRateLimit(count: nat, addressesPerRequest: int) {
    if addressesPerRequest == 0 then count > 0
    else (count as real) / (addressesPerRequest as real) > MaxPagesWorth as real
  }

  /** The guard rejects exactly the calls with more than ten times
      `addressesPerRequest` addresses for a positive page size, and the
      calls with a page size of zero that have an address; a negative page
      size always passes. */
  lemma ExceedsRateLimitIff(count: nat, addressesPerRequest: int)
    ensures ExceedsRateLimit(count, addressesPerRequest)
        <==> ((addressesPerRequest == 0 && count > 0)
              || (addressesPerRequest > 0 && count > MaxPagesWorth * addressesPerRequest))
  {
    if addressesPerRequest != 0 {
      var n := count as real;
      var k := addressesPerRequest as real;
      if addressesPerRequest > 0 {
        QuotientAbove(n, k, MaxPagesWorth as real);
      } else {
        QuotientNotPositive(n, k);
      }
    }
  }

  lemma QuotientAbove(n: real, k: real, c: real)
    requires k > 0.0
    ensures n / k > c <==> n > c * k
  {
    var q := n / k;
    assert q * k == n;
    if q > c {
      assert (q - c) * k > 0.0;
    } else {
      assert (c - q) * k >= 0.0;
    }
  }

  lemma QuotientNotPositive(n: real, k: real)
    requires n >= 0.0 && k < 0.0
    ensures n / k <= 0.0
  {
    QuotientAbove(n, -k, 0.0);
    assert n / k == -(n / -k);
  }

  // ---------------------------------------------------------------------
  // Grouping by platform and pages

  /** `tokens.map((token) => token.address)`. */
  function Addresses(tokens: seq<MappedToken>): (r: seq<string>)
    ensures |r| == |tokens|
    ensures forall i :: 0 <= i < |tokens| ==> r[i] == tokens[i].address
  {
    seq(|tokens|, i requires 0 <= i < |tokens| => tokens[i].address)
  }

  /** The tokens on `platform`, in their order. */
  function OnPlatform(mapped: seq<MappedToken>, platform: string): seq<MappedToken>
  {
    if mapped == [] then []
    else
      var init := OnPlatform(mapped[..|mapped| - 1], platform);
      if mapped[|mapped| - 1].platform == platform then init + [mapped[|mapped| - 1]] else init
  }

  /** `_.groupBy(mapped, 'platform')`: one group per platform, in the order
      platforms first occur, each holding its tokens in order. */
  function GroupByPlatform(mapped: seq<MappedToken>): Obj<seq<MappedToken>>
  {
    if mapped == [] then Empty()
    else
      var groups := GroupByPlatform(mapped[..|mapped| - 1]);
      var token := mapped[|mapped| - 1];
      var group := match Get(groups, token.platform) case Some(g) => g case None => [];
      Put(groups, token.platform, group + [token])
  }

  /** A platform has a group exactly when some token is on it, and the group
      is every token on that platform, in order. */
  lemma {:induction false} GroupByPlatformGet(mapped: seq<MappedToken>, platform: string)
    ensures Get(GroupByPlatform(mapped), platform).None? <==> forall i :: 0 <= i < |mapped| ==> mapped[i].platform != platform
    ensures Get(GroupByPlatform(mapped), platform).Some? ==>
      Get(GroupByPlatform(mapped), platform).value == OnPlatform(mapped, platform)
  {
    if mapped != [] {
      var init := mapped[..|mapped| - 1];
      GroupByPlatformGet(init, platform);
      assert forall i :: 0 <= i < |init| ==> init[i] == mapped[i];
      if Get(GroupByPlatform(init), platform).None? {
        assert OnPlatform(init, platform) == [] by { NoneOnPlatform(init, platform); }
      }
    }
  }

  lemma {:induction false} NoneOnPlatform(mapped: seq<MappedToken>, platform: string)
    requires forall i :: 0 <= i < |mapped| ==> mapped[i].platform != platform
    ensures OnPlatform(mapped, platform) == []
  {
    if mapped != [] {
      var init := mapped[..|mapped| - 1];
      assert forall i :: 0 <= i < |init| ==> init[i] == mapped[i];
      NoneOnPlatform(init, platform);
    }
  }

  /** `Math.ceil(count / addressesPerRequest)`. */
  function PageCount(count: nat, addressesPerRequest: nat): nat
    requires addressesPerRequest > 0
  {
    (count + addressesPerRequest - 1) / addressesPerRequest
  }

  /** The page count is the ceiling of the quotient: enough pages for every
      address, and not one more. */
  lemma PageCountIsCeiling(count: nat, addressesPerRequest: nat)
    requires addressesPerRequest > 0
    ensures var pages := PageCount(count, addressesPerRequest);
      && pages * addressesPerRequest >= count
      && (pages - 1) * addressesPerRequest < count
  {
    var k := addressesPerRequest;
    var pages: int := PageCount(count, k);
    var m := count + k - 1;
    assert m == pages * k + m % k;
    assert (pages - 1) * k == pages * k - k;
  }

  lemma MulMonotone(k: int, a: int, b: int)
    requires k >= 0 && a <= b
    ensures k * a <= k * b
  {
    assert k * b - k * a == k * (b - a);
  }

  /** Page `p` starts before the last address and ends `addressesPerRequest`
      addresses later (or at the end). */
  lemma PageStart(count: nat, addressesPerRequest: nat, p: nat)
    requires addressesPerRequest > 0 && p < PageCount(count, addressesPerRequest)
    ensures addressesPerRequest * p < count
    ensures addressesPerRequest * (p + 1) == addressesPerRequest * p + addressesPerRequest
  {
    PageCountIsCeiling(count, addressesPerRequest);
    MulMonotone(addressesPerRequest, p, PageCount(count, addressesPerRequest) - 1);
  }

  /** An index argument of `Array.prototype.slice`: a negative one counts
      from the end; the result is clamped to the length. */
  function SliceIndex(length: nat, index: int): nat {
    if index < 0 then Clamp(length + index, length) else Clamp(index, length)
  }

  /** `mappedAddresses.slice(addressesPerRequest * page, addressesPerRequest * (page + 1))`:
      empty when the end comes before the start. */
  function Slice(xs: seq<string>, from: int, to: int): (r: seq<string>)
  {
    var lo := SliceIndex(|xs|, from);
    var hi := SliceIndex(|xs|, to);
    if hi < lo then [] else xs[lo..hi]
  }

  function Page(xs: seq<string>, addressesPerRequest: nat, page: nat): seq<string> {
    Slice(xs, addressesPerRequest * page, addressesPerRequest * (page + 1))
  }

  /** The pages of one platform's addresses. */
  function PagesOf(xs: seq<string>, addressesPerRequest: nat): (r: seq<seq<string>>)
    requires addressesPerRequest > 0
    ensures |r| == PageCount(|xs|, addressesPerRequest)
  {
    seq(PageCount(|xs|, addressesPerRequest),
        page requires 0 <= page => Page(xs, addressesPerRequest, page))
  }

  function Flatten(pages: seq<seq<string>>): seq<string>
  {
    if pages == [] then [] else Flatten(pages[..|pages| - 1]) + pages[|pages| - 1]
  }

  /** Every page holds between one and `addressesPerRequest` addresses, and
      the pages laid end to end are the addresses in order. */
  lemma PagesOfPartition(xs: seq<string>, addressesPerRequest: nat)
    requires addressesPerRequest > 0
    ensures var pages := PagesOf(xs, addressesPerRequest);
      && (forall p :: 0 <= p < |pages| ==> 0 < |pages[p]| <= addressesPerRequest)
      && Flatten(pages) == xs
  {
    PagesSized(xs, addressesPerRequest);
    PagesJoin(xs, addressesPerRequest);
  }

  lemma PagesSized(xs: seq<string>, addressesPerRequest: nat)
    requires addressesPerRequest > 0
    ensures var pages := PagesOf(xs, addressesPerRequest);
      forall p :: 0 <= p < |pages| ==> 0 < |pages[p]| <= addressesPerRequest
  {
    var pages := PagesOf(xs, addressesPerRequest);
    forall p | 0 <= p < |pages|
      ensures 0 < |pages[p]| <= addressesPerRequest
    {
      PageIs(xs, addressesPerRequest, p);
    }
  }

  lemma PagesJoin(xs: seq<string>, addressesPerRequest: nat)
    requires addressesPerRequest > 0
    ensures Flatten(PagesOf(xs, addressesPerRequest)) == xs
  {
    var pages := PagesOf(xs, addressesPerRequest);
    PagesPrefix(xs, addressesPerRequest, |pages|);
    PageCountIsCeiling(|xs|, addressesPerRequest);
    assert pages[..|pages|] == pages;
    assert Clamp(addressesPerRequest * |pages|, |xs|) == |xs|;
    assert xs[..|xs|] == xs;
  }

  /** Page `p` is the addresses from `p * addressesPerRequest` on, at most
      `addressesPerRequest` of them and at least one. */
  lemma PageIs(xs: seq<string>, addressesPerRequest: nat, p: nat)
    requires addressesPerRequest > 0 && p < PageCount(|xs|, addressesPerRequest)
    ensures var lo := addressesPerRequest * p;
      var hi := if lo + addressesPerRequest > |xs| then |xs| else lo + addressesPerRequest;
      && lo < hi <= lo + addressesPerRequest
      && PagesOf(xs, addressesPerRequest)[p] == xs[lo..hi]
  {
    PageStart(|xs|, addressesPerRequest, p);
  }

  /** `n` capped at `bound`. */
  function Clamp(n: int, bound: nat): nat {
    if n > bound then bound else if n < 0 then 0 else n
  }

  lemma FlattenStep(pages: seq<seq<string>>, n: nat)
    requires 0 < n <= |pages|
    ensures Flatten(pages[..n]) == Flatten(pages[..n - 1]) + pages[n - 1]
  {
    assert pages[..n][..n - 1] == pages[..n - 1];
  }

  lemma SliceJoin(xs: seq<string>, lo: nat, hi: nat)
    requires lo <= hi <= |xs|
    ensures xs[..lo] + xs[lo..hi] == xs[..hi]
  {
  }

  /** The first `n` pages are the addresses up to the `n`-th page boundary. */
  lemma {:induction false} PagesPrefix(xs: seq<string>, addressesPerRequest: nat, n: nat)
    requires addressesPerRequest > 0 && n <= PageCount(|xs|, addressesPerRequest)
    ensures Flatten(PagesOf(xs, addressesPerRequest)[..n]) == xs[..Clamp(addressesPerRequest * n, |xs|)]
  {
    var k := addressesPerRequest;
    var pages := PagesOf(xs, k);
    if n == 0 {
      assert pages[..0] == [];
    } else {
      var lo := k * (n - 1);
      var before := Flatten(pages[..n - 1]);
      assert 0 <= lo < |xs| && k * n == lo + k by {
        PageStart(|xs|, k, n - 1);
        MulMonotone(k, 0, n - 1);
      }
      assert before == xs[..Clamp(lo, |xs|)] by {
        PagesPrefix(xs, k, n - 1);
      }
      assert pages[n - 1] == xs[lo..if lo + k > |xs| then |xs| else lo + k] by {
        PageIs(xs, k, n - 1);
      }
      FlattenStep(pages, n);
      PrefixStep(xs, lo, k, k * n, before, pages[n - 1]);
    }
  }

  /** The addresses up to one page boundary, followed by the next page, are
      the addresses up to the next boundary. */
  lemma PrefixStep(xs: seq<string>, lo: int, k: nat, next: int, before: seq<string>, page: seq<string>)
    requires 0 <= lo < |xs| && next == lo + k
    requires before == xs[..Clamp(lo, |xs|)]
    requires page == xs[lo..if lo + k > |xs| then |xs| else lo + k]
    ensures before + page == xs[..Clamp(next, |xs|)]
  {
    SliceJoin(xs, lo, Clamp(next, |xs|));
  }

  /** One request per page of the platform's addresses. */
  function PlatformRequests(platform: string, addresses: seq<string>, addressesPerRequest: nat): (r: seq<Request>)
    requires addressesPerRequest > 0
    ensures |r| == PageCount(|addresses|, addressesPerRequest)
    ensures forall p :: 0 <= p < |r| ==>
      r[p] == TokenPriceRequest(platform, Page(addresses, addressesPerRequest, p))
  {
    var pages := PagesOf(addresses, addressesPerRequest);
    seq(|pages|, p requires 0 <= p < |pages| => TokenPriceRequest(platform, pages[p]))
  }

  /** The requests for the first `n` platform groups, in group order. */
  function PlanFirst(groups: Obj<seq<MappedToken>>, n: nat, addressesPerRequest: nat): seq<Request>
    requires n <= |groups.keys|
    requires addressesPerRequest > 0 || n == 0
  {
    if n == 0 then []
    else
      var platform := groups.keys[n - 1];
      PlanFirst(groups, n - 1, addressesPerRequest)
        + PlatformRequests(platform, Addresses(groups.values[platform]), addressesPerRequest)
  }

  /** Every request planned for the groups. */
  function Plan(groups: Obj<seq<MappedToken>>, addressesPerRequest: nat): seq<Request>
    requires addressesPerRequest > 0 || groups.keys == []
  {
    PlanFirst(groups, |groups.keys|, addressesPerRequest)
  }

  /** Tokens on pairwise distinct platforms form one group each, holding
      just that token. */
  lemma {:induction false} DistinctPlatformsGroups(mapped: seq<MappedToken>)
    requires forall i, j :: 0 <= i < j < |mapped| ==> mapped[i].platform != mapped[j].platform
    ensures var groups := GroupByPlatform(mapped);
      && |groups.keys| == |mapped|
      && forall i :: 0 <= i < |groups.keys| ==> |groups.values[groups.keys[i]]| == 1
  {
    if mapped != [] {
      var init := mapped[..|mapped| - 1];
      var token := mapped[|mapped| - 1];
      assert forall i :: 0 <= i < |init| ==> init[i] == mapped[i];
      DistinctPlatformsGroups(init);
      var groups := GroupByPlatform(init);
      assert forall i :: 0 <= i < |init| ==> init[i].platform != token.platform;
      GroupByPlatformGet(init, token.platform);
      assert Get(groups, token.platform) == None;
      assert token.platform !in groups.keys;
      var grouped := GroupByPlatform(mapped);
      var none: seq<MappedToken> := [];
      assert none + [token] == [token];
      assert grouped == Put(groups, token.platform, none + [token]);
      forall i | 0 <= i < |grouped.keys|
        ensures |grouped.values[grouped.keys[i]]| == 1
      {
        if i < |groups.keys| {
          assert grouped.keys[i] == groups.keys[i] != token.platform;
        }
      }
    }
  }

  /** Groups of one token ask for one request each. */
  lemma {:induction false} OneRequestPerSingleton(groups: Obj<seq<MappedToken>>, n: nat, addressesPerRequest: nat)
    requires addressesPerRequest > 0 && n <= |groups.keys|
    requires forall i :: 0 <= i < |groups.keys| ==> |groups.values[groups.keys[i]]| == 1
    ensures |PlanFirst(groups, n, addressesPerRequest)| == n
  {
    if n > 0 {
      OneRequestPerSingleton(groups, n - 1, addressesPerRequest);
      assert PageCount(1, addressesPerRequest) == 1;
    }
  }

  /** The rate-limit guard bounds the addresses, not the requests: tokens on
      pairwise distinct platforms pass it up to ten times the page size, and
      each of them costs a request of its own. */
  lemma GuardCountsAddresses(mapped: seq<MappedToken>, addressesPerRequest: nat)
    requires addressesPerRequest > 0 && |mapped| <= MaxPagesWorth * addressesPerRequest
    requires forall i, j :: 0 <= i < j < |mapped| ==> mapped[i].platform != mapped[j].platform
    ensures !ExceedsRateLimit(|mapped|, addressesPerRequest)
    ensures |Plan(GroupByPlatform(mapped), addressesPerRequest)| == |mapped|
  {
    ExceedsRateLimitIff(|mapped|, addressesPerRequest);
    DistinctPlatformsGroups(mapped);
    OneRequestPerSingleton(GroupByPlatform(mapped), |GroupByPlatform(mapped).keys|, addressesPerRequest);
  }

  /** Eleven tokens, each on a platform of its own, pass the guard at the
      default page size of 100 and make eleven requests. */
  lemma ElevenPlatformsElevenRequests()
    ensures var mapped := seq(11, i requires 0 <= i < 11 => MappedToken([(97 + i) as char], "0xtoken", None));
      && !ExceedsRateLimit(|mapped|, 100)
      && |Plan(GroupByPlatform(mapped), 100)| == 11 > MaxPagesWorth
  {
    var mapped := seq(11, i requires 0 <= i < 11 => MappedToken([(97 + i) as char], "0xtoken", None));
    forall i, j | 0 <= i < j < |mapped|
      ensures mapped[i].platform != mapped[j].platform
    {
      assert mapped[i].platform[0] != mapped[j].platform[0];
    }
    GuardCountsAddresses(mapped, 100);
  }

  /** `Array(pageCount)` rejects a page count that is not an array length.
      With a page size of zero the count is Infinity (or NaN for an empty
      group); with a negative page size `Math.ceil` gives -0, no page, for a
      group smaller than the size's magnitude and a negative integer for
      any other group. */
  predicate RejectsPageCount(groups: Obj<seq<MappedToken>>, addressesPerRequest: int) {
    addressesPerRequest <= 0
    && exists i :: 0 <= i < |groups.keys| && |groups.values[groups.keys[i]]| >= -addressesPerRequest
  }

  /** The requests planned for any page size the guard lets through: none
      when the size is not positive (and no group is rejected). */
  function Planned(groups: Obj<seq<MappedToken>>, addressesPerRequest: int): seq<Request> {
    if addressesPerRequest > 0 then Plan(groups, addressesPerRequest) else []
  }

  /** The nested `forEach` loops of `getTokenPrices` that push one request
      per page of each platform group; a page count `Array` rejects throws. */
  method PlanRequests(groups: Obj<seq<MappedToken>>, addressesPerRequest: int)
    returns (r: Result<seq<Request>, PriceError>)
    ensures r.Failure? <==> RejectsPageCount(groups, addressesPerRequest)
    ensures r.Failure? ==> r.error == InvalidArrayLength
    ensures r.Success? ==> r.value == Planned(groups, addressesPerRequest)
  {
    var requests := [];
    for i := 0 to |groups.keys|
      invariant addressesPerRequest > 0 ==> requests == PlanFirst(groups, i, addressesPerRequest)
      invariant addressesPerRequest <= 0 ==>
        requests == [] && forall j :: 0 <= j < i ==> |groups.values[groups.keys[j]]| < -addressesPerRequest
    {
      var platform := groups.keys[i];
      var tokens := groups.values[platform];
      var mappedAddresses := Addresses(tokens);
      if addressesPerRequest <= 0 {
        if |mappedAddresses| >= -addressesPerRequest {
          return Failure(InvalidArrayLength);
        }
      } else {
        var pageCount := PageCount(|mappedAddresses|, addressesPerRequest);
        ghost var planned := PlatformRequests(platform, mappedAddresses, addressesPerRequest);
        for page := 0 to pageCount
          invariant requests == PlanFirst(groups, i, addressesPerRequest) + planned[..page]
        {
          var addressString := Slice(mappedAddresses, addressesPerRequest * page, addressesPerRequest * (page + 1));
          requests := requests + [TokenPriceRequest(platform, addressString)];
          assert planned[..page + 1] == planned[..page] + [planned[page]];
        }
        assert planned[..pageCount] == planned;
      }
    }
    r := Success(requests);
  }

  /** A page count is rejected exactly when the page size is not positive
      and some platform has at least the size's magnitude of tokens. */
  lemma RejectsPageCountOnTokens(mapped: seq<MappedToken>, addressesPerRequest: int)
    ensures RejectsPageCount(GroupByPlatform(mapped), addressesPerRequest)
        <==> addressesPerRequest <= 0
             && exists i :: 0 <= i < |mapped| && |OnPlatform(mapped, mapped[i].platform)| >= -addressesPerRequest
  {
    var groups := GroupByPlatform(mapped);
    if RejectsPageCount(groups, addressesPerRequest) {
      var j :| 0 <= j < |groups.keys| && |groups.values[groups.keys[j]]| >= -addressesPerRequest;
      var p := groups.keys[j];
      GroupByPlatformGet(mapped, p);
      var i :| 0 <= i < |mapped| && mapped[i].platform == p;
      assert |OnPlatform(mapped, mapped[i].platform)| >= -addressesPerRequest;
    }
    if addressesPerRequest <= 0
       && exists i :: 0 <= i < |mapped| && |OnPlatform(mapped, mapped[i].platform)| >= -addressesPerRequest {
      var i :| 0 <= i < |mapped| && |OnPlatform(mapped, mapped[i].platform)| >= -addressesPerRequest;
      var p := mapped[i].platform;
      GroupByPlatformGet(mapped, p);
      Listed(groups, p);
      var j :| 0 <= j < |groups.keys| && groups.keys[j] == p;
      assert |groups.values[groups.keys[j]]| >= -addressesPerRequest;
    }
  }

  /** The address lists of the requests for `platform`, in order. */
  function AddressesFor(requests: seq<Request>, platform: string): seq<seq<string>>
  {
    if requests == [] then []
    else
      var init := AddressesFor(requests[..|requests| - 1], platform);
      var last := requests[|requests| - 1];
      if last.TokenPriceRequest? && last.platform == platform then init + [last.contractAddresses] else init
  }

  lemma {:induction false} AddressesForJoin(a: seq<Request>, b: seq<Request>, platform: string)
    ensures AddressesFor(a + b, platform) == AddressesFor(a, platform) + AddressesFor(b, platform)
    decreases |b|
  {
    if b == [] {
      assert a + b == a;
    } else {
      var b' := b[..|b| - 1];
      AddressesForJoin(a, b', platform);
      assert (a + b)[..|a + b| - 1] == a + b';
    }
  }

  lemma {:induction false} AddressesForPlatform(platform: string, addresses: seq<string>, addressesPerRequest: nat,
                                                wanted: string, n: nat)
    requires addressesPerRequest > 0 && n <= PageCount(|addresses|, addressesPerRequest)
    ensures var r := PlatformRequests(platform, addresses, addressesPerRequest)[..n];
      AddressesFor(r, wanted) == if platform == wanted then PagesOf(addresses, addressesPerRequest)[..n] else []
  {
    if n > 0 {
      var all := PlatformRequests(platform, addresses, addressesPerRequest);
      AddressesForPlatform(platform, addresses, addressesPerRequest, wanted, n - 1);
      assert all[..n][..n - 1] == all[..n - 1];
      assert PagesOf(addresses, addressesPerRequest)[..n]
          == PagesOf(addresses, addressesPerRequest)[..n - 1] + [PagesOf(addresses, addressesPerRequest)[n - 1]];
    }
  }

  /** `platform` is one of the first `n` keys. */
  predicate AmongFirst(keys: seq<string>, n: nat, platform: string)
    requires n <= |keys|
  {
    exists i :: 0 <= i < n && keys[i] == platform
  }

  /** The tokens grouped under `platform`; none when it has no group. */
  function GroupOf(groups: Obj<seq<MappedToken>>, platform: string): seq<MappedToken> {
    if platform in groups.values then groups.values[platform] else []
  }

  /** The first `n` groups send `platform`'s addresses, page by page, when
      `platform` is among them, and nothing for it otherwise. */
  ghost predicate SendsPagesFor(groups: Obj<seq<MappedToken>>, n: nat, addressesPerRequest: nat, platform: string)
    requires n <= |groups.keys| && addressesPerRequest > 0
  {
    AddressesFor(PlanFirst(groups, n, addressesPerRequest), platform)
      == if AmongFirst(groups.keys, n, platform)
         then PagesOf(Addresses(GroupOf(groups, platform)), addressesPerRequest)
         else []
  }

  lemma {:induction false} PlanFirstFor(groups: Obj<seq<MappedToken>>, n: nat, addressesPerRequest: nat,
                                        platform: string)
    requires n <= |groups.keys| && addressesPerRequest > 0
    ensures SendsPagesFor(groups, n, addressesPerRequest, platform)
    decreases n
  {
    if n == 0 {
      PlanFirstForNone(groups, addressesPerRequest, platform);
    } else {
      PlanFirstFor(groups, n - 1, addressesPerRequest, platform);
      PlanFirstForStep(groups, n, addressesPerRequest, platform);
    }
  }

  lemma PlanFirstForNone(groups: Obj<seq<MappedToken>>, addressesPerRequest: nat, platform: string)
    requires addressesPerRequest > 0
    ensures SendsPagesFor(groups, 0, addressesPerRequest, platform)
  {
    assert !AmongFirst(groups.keys, 0, platform);
    assert PlanFirst(groups, 0, addressesPerRequest) == [];
  }

  lemma PlanFirstForStep(groups: Obj<seq<MappedToken>>, n: nat, addressesPerRequest: nat, platform: string)
    requires 0 < n <= |groups.keys| && addressesPerRequest > 0
    requires SendsPagesFor(groups, n - 1, addressesPerRequest, platform)
    ensures SendsPagesFor(groups, n, addressesPerRequest, platform)
  {
    var p := groups.keys[n - 1];
    var addresses := Addresses(groups.values[p]);
    var before := PlanFirst(groups, n - 1, addressesPerRequest);
    var all := PlatformRequests(p, addresses, addressesPerRequest);
    assert PlanFirst(groups, n, addressesPerRequest) == before + all;
    AddressesForJoin(before, all, platform);
    AddressesForOwn(p, addresses, addressesPerRequest, platform);
    AmongFirstStep(groups.keys, n, platform);
    if p == platform {
      assert AddressesFor(before, platform) == [];
    }
  }

  /** The requests of one platform carry, for that platform, its pages. */
  lemma AddressesForOwn(platform: string, addresses: seq<string>, addressesPerRequest: nat, wanted: string)
    requires addressesPerRequest > 0
    ensures AddressesFor(PlatformRequests(platform, addresses, addressesPerRequest), wanted)
         == if platform == wanted then PagesOf(addresses, addressesPerRequest) else []
  {
    var all := PlatformRequests(platform, addresses, addressesPerRequest);
    AddressesForPlatform(platform, addresses, addressesPerRequest, wanted, |all|);
    assert all[..|all|] == all;
    var pages := PagesOf(addresses, addressesPerRequest);
    assert pages[..|all|] == pages;
  }

  /** Among the first `n` keys exactly when it is the `n`-th, or among the
      first `n - 1`, not both. */
  lemma AmongFirstStep(keys: seq<string>, n: nat, platform: string)
    requires 0 < n <= |keys| && UniqueKeys(keys)
    ensures AmongFirst(keys, n, platform) <==> keys[n - 1] == platform || AmongFirst(keys, n - 1, platform)
    ensures keys[n - 1] == platform ==> !AmongFirst(keys, n - 1, platform)
  {
    if keys[n - 1] == platform {
      assert AmongFirst(keys, n, platform);
    }
  }

  /** Every mapped token lands in exactly one planned request, one for its
      own platform: the requests for a platform, laid end to end, are that
      platform's token addresses in order, at most `addressesPerRequest` per
      request. */
  lemma PlanRoutesEveryToken(mapped: seq<MappedToken>, addressesPerRequest: nat, platform: string)
    requires addressesPerRequest > 0
    ensures var sent := AddressesFor(Plan(GroupByPlatform(mapped), addressesPerRequest), platform);
      && Flatten(sent) == Addresses(OnPlatform(mapped, platform))
      && forall p :: 0 <= p < |sent| ==> 0 < |sent[p]| <= addressesPerRequest
  {
    var groups := GroupByPlatform(mapped);
    PlanFirstFor(groups, |groups.keys|, addressesPerRequest, platform);
    GroupByPlatformGet(mapped, platform);
    if Get(groups, platform).Some? {
      Listed(groups, platform);
      var i :| 0 <= i < |groups.keys| && groups.keys[i] == platform;
      assert AmongFirst(groups.keys, |groups.keys|, platform);
      PagesOfPartition(Addresses(groups.values[platform]), addressesPerRequest);
    } else {
      assert !AmongFirst(groups.keys, |groups.keys|, platform);
      NoneOnPlatform(mapped, platform);
    }
  }

  /** Every planned request is for a platform some token is on. */
  lemma {:induction false} PlanOnlyForTokenPlatforms(mapped: seq<MappedToken>, addressesPerRequest: nat, k: nat)
    requires addressesPerRequest > 0
    requires k < |Plan(GroupByPlatform(mapped), addressesPerRequest)|
    ensures exists i :: 0 <= i < |mapped| && mapped[i].platform == Plan(GroupByPlatform(mapped), addressesPerRequest)[k].platform
  {
    var groups := GroupByPlatform(mapped);
    var platform := Plan(groups, addressesPerRequest)[k].platform;
    PlanFirstPlatforms(groups, |groups.keys|, addressesPerRequest, k);
    assert platform in groups.keys;
    GroupByPlatformGet(mapped, platform);
  }

  lemma {:induction false} PlanFirstPlatforms(groups: Obj<seq<MappedToken>>, n: nat, addressesPerRequest: nat, k: nat)
    requires n <= |groups.keys| && addressesPerRequest > 0
    requires k < |PlanFirst(groups, n, addressesPerRequest)|
    ensures PlanFirst(groups, n, addressesPerRequest)[k].platform in groups.keys
    ensures PlanFirst(groups, n, addressesPerRequest)[k].TokenPriceRequest?
  {
    var before := PlanFirst(groups, n - 1, addressesPerRequest);
    if k >= |before| {
      assert groups.keys[n - 1] in groups.keys;
    } else {
      PlanFirstPlatforms(groups, n - 1, addressesPerRequest, k);
    }
  }

  // ---------------------------------------------------------------------
  // parsePaginatedTokens

  /** A mapped token back-fills `key` into the prices: it remembers an
      original address that normalizes to `key`, and its contract address
      has a price. */
  predicate BackFills(token: MappedToken, results: Obj<Price>, codec: AddressCodec, key: string) {
    Truthy(token.originalAddress) && Get(results, token.address).Some?
    && Normalize(codec, token.originalAddress.value) == key
  }

  /** One pass of the loop of `parsePaginatedTokens` over a mapped token. */
  function BackFillOne(prices: Obj<Price>, results: Obj<Price>, token: MappedToken, codec: AddressCodec): Obj<Price> {
    if Truthy(token.originalAddress) && Get(results, token.address).Some?
    then Put(prices, Normalize(codec, token.originalAddress.value), Get(results, token.address).value)
    else prices
  }

  function BackFill(prices: Obj<Price>, results: Obj<Price>, tokens: seq<MappedToken>, codec: AddressCodec): Obj<Price>
    decreases |tokens|
  {
    if tokens == [] then prices else BackFill(BackFillOne(prices, results, tokens[0], codec), results, tokens[1..], codec)
  }

  /** The result of `parsePaginatedTokens`. */
  function ParsedPrices(pages: seq<Obj<Price>>, mappedTokens: seq<MappedToken>, codec: AddressCodec): Obj<Price> {
    var results := Merge(pages);
    BackFill(MapKeys(results, Renamer(codec)), results, mappedTokens, codec)
  }

  method ParsePaginatedTokens(pages: seq<Obj<Price>>, mappedTokens: seq<MappedToken>, codec: AddressCodec)
    returns (prices: Obj<Price>)
    ensures prices == ParsedPrices(pages, mappedTokens, codec)
  {
    var results := Merge(pages);
    prices := MapKeys(results, Renamer(codec));
    for i := 0 to |mappedTokens|
      invariant BackFill(prices, results, mappedTokens[i..], codec) == ParsedPrices(pages, mappedTokens, codec)
    {
      var token := mappedTokens[i];
      assert mappedTokens[i..][1..] == mappedTokens[i + 1..];
      if Truthy(token.originalAddress) && Get(results, token.address).Some? {
        prices := Put(prices, Normalize(codec, token.originalAddress.value), Get(results, token.address).value);
      }
    }
    assert mappedTokens[|mappedTokens|..] == [];
  }

  /** A key no token back-fills keeps its price; a key some token
      back-fills takes the price of the LAST such token's contract address. */
  lemma {:induction false} BackFillGet(prices: Obj<Price>, results: Obj<Price>, tokens: seq<MappedToken>,
                                       codec: AddressCodec, key: string)
    ensures (forall i :: 0 <= i < |tokens| ==> !BackFills(tokens[i], results, codec, key)) ==>
      Get(BackFill(prices, results, tokens, codec), key) == Get(prices, key)
    ensures (exists i :: 0 <= i < |tokens| && BackFills(tokens[i], results, codec, key)) ==>
      exists i :: 0 <= i < |tokens| && BackFills(tokens[i], results, codec, key)
        && Get(BackFill(prices, results, tokens, codec), key) == Get(results, tokens[i].address)
        && forall j :: i < j < |tokens| ==> !BackFills(tokens[j], results, codec, key)
    decreases |tokens|
  {
    if tokens != [] {
      var next := BackFillOne(prices, results, tokens[0], codec);
      var tail := tokens[1..];
      BackFillGet(next, results, tail, codec, key);
      assert forall i :: 0 < i < |tokens| ==> tokens[i] == tail[i - 1];
      if exists i :: 0 < i < |tokens| && BackFills(tokens[i], results, codec, key) {
        var i :| 0 < i < |tokens| && BackFills(tokens[i], results, codec, key);
        assert BackFills(tail[i - 1], results, codec, key);
        var i' :| 0 <= i' < |tail| && BackFills(tail[i'], results, codec, key)
          && Get(BackFill(next, results, tail, codec), key) == Get(results, tail[i'].address)
          && forall j :: i' < j < |tail| ==> !BackFills(tail[j], results, codec, key);
        assert tokens[i' + 1] == tail[i'];
      }
    }
  }

  /** Every key of every page is in the parsed prices, normalized. */
  lemma ParsedKeepsEveryKey(pages: seq<Obj<Price>>, mappedTokens: seq<MappedToken>, codec: AddressCodec,
                            p: nat, key: string)
    requires p < |pages| && key in pages[p].keys
    ensures Get(ParsedPrices(pages, mappedTokens, codec), Normalize(codec, key)).Some?
  {
    var results := Merge(pages);
    var wanted := Normalize(codec, key);
    MergeGet(pages, key);
    Listed(results, key) by {
      assert Get(results, key).Some? by {
        assert Get(pages[p], key).Some?;
      }
    }
    var i :| 0 <= i < |results.keys| && results.keys[i] == key;
    MapKeysGet(results, Renamer(codec), wanted);
    BackFillGet(MapKeys(results, Renamer(codec)), results, mappedTokens, codec, wanted);
  }

  /** Where no token back-fills a key, its parsed price is the renamed
      merge's: the price under the last merged key normalizing to it, each
      merged key holding its last page's price. */
  lemma ParsedWithoutBackFill(pages: seq<Obj<Price>>, mappedTokens: seq<MappedToken>, codec: AddressCodec, key: string)
    requires forall i :: 0 <= i < |mappedTokens| ==> !BackFills(mappedTokens[i], Merge(pages), codec, key)
    ensures Get(ParsedPrices(pages, mappedTokens, codec), key) == Get(MapKeys(Merge(pages), Renamer(codec)), key)
  {
    var results := Merge(pages);
    BackFillGet(MapKeys(results, Renamer(codec)), results, mappedTokens, codec, key);
  }

  /** A token that remembers its original address makes the price of its
      contract address available under the normalized original address too,
      unless a later token back-fills the same key. */
  lemma ParsedBackFillsOriginal(pages: seq<Obj<Price>>, mappedTokens: seq<MappedToken>, codec: AddressCodec,
                                i: nat, key: string)
    requires i < |mappedTokens| && BackFills(mappedTokens[i], Merge(pages), codec, key)
    requires forall j :: i < j < |mappedTokens| ==> !BackFills(mappedTokens[j], Merge(pages), codec, key)
    ensures Get(ParsedPrices(pages, mappedTokens, codec), key) == Get(Merge(pages), mappedTokens[i].address)
  {
    var results := Merge(pages);
    BackFillGet(MapKeys(results, Renamer(codec)), results, mappedTokens, codec, key);
    var i' :| 0 <= i' < |mappedTokens| && BackFills(mappedTokens[i'], results, codec, key)
      && Get(ParsedPrices(pages, mappedTokens, codec), key) == Get(results, mappedTokens[i'].address)
      && forall j :: i' < j < |mappedTokens| ==> !BackFills(mappedTokens[j], results, codec, key);
    assert i' == i;
  }

  // ---------------------------------------------------------------------
  // getTokenPrices

  /** The prices the planned requests return, merged and back-filled. */
  function RequestedPrices(addresses: seq<string>, addressesPerRequest: int, tokens: seq<TokenDefinition>,
                           platformId: string, fetch: Request -> Obj<Price>, codec: AddressCodec): Obj<Price>
  {
    var mapped := MapTokens(addresses, tokens, platformId, codec);
    var requests := Planned(GroupByPlatform(mapped), addressesPerRequest);
    var pages := seq(|requests|, i requires 0 <= i < |requests| => fetch(requests[i]));
    ParsedPrices(pages, mapped, codec)
  }

  /** What `getTokenPrices` resolves to, or the error it throws. */
  function TokenPrices(addresses: seq<string>, addressesPerRequest: int, tokens: seq<TokenDefinition>,
                       platformId: string, nativeAssetAddress: string, nativePrice: Price,
                       fetch: Request -> Obj<Price>, codec: AddressCodec): Result<Obj<Price>, PriceError>
  {
    if ExceedsRateLimit(|addresses|, addressesPerRequest) then Failure(TooManyRequests)
    else if RejectsPageCount(GroupByPlatform(MapTokens(addresses, tokens, platformId, codec)), addressesPerRequest)
    then Failure(InvalidArrayLength)
    else
      var results := RequestedPrices(addresses, addressesPerRequest, tokens, platformId, fetch, codec);
      if nativeAssetAddress in addresses then Success(Put(results, nativeAssetAddress, nativePrice))
      else Success(results)
  }

  method GetTokenPrices(addresses: seq<string>, addressesPerRequest: int, tokens: seq<TokenDefinition>,
                        platformId: string, nativeAssetAddress: string, nativePrice: Price,
                        fetch: Request -> Obj<Price>, codec: AddressCodec)
    returns (r: Result<Obj<Price>, PriceError>)
    ensures r == TokenPrices(addresses, addressesPerRequest, tokens, platformId, nativeAssetAddress,
                             nativePrice, fetch, codec)
  {
    if ExceedsRateLimit(|addresses|, addressesPerRequest) {
      return Failure(TooManyRequests);
    }
    var mapped := MapTokens(addresses, tokens, platformId, codec);
    var groupedByPlatform := GroupByPlatform(mapped);
    var planned := PlanRequests(groupedByPlatform, addressesPerRequest);
    if planned.Failure? {
      return Failure(planned.error);
    }
    var requests := planned.value;
    var paginatedResults := seq(|requests|, i requires 0 <= i < |requests| => fetch(requests[i]));
    var results := ParsePaginatedTokens(paginatedResults, mapped, codec);
    if nativeAssetAddress in addresses {
      results := Put(results, nativeAssetAddress, nativePrice);
    }
    return Success(results);
  }

  /** The guard fails exactly the calls with more than ten times
      `addressesPerRequest` addresses for a positive page size (or with an
      address and a zero page size), whatever the definitions and
      the API would answer; past the guard, only a negative page size with
      a platform of at least that many tokens fails. A page size that is
      not negative fails only at the guard. */
  lemma TokenPricesFailsIff(addresses: seq<string>, addressesPerRequest: int, tokens: seq<TokenDefinition>,
                            platformId: string, nativeAssetAddress: string, nativePrice: Price,
                            fetch: Request -> Obj<Price>, codec: AddressCodec)
    ensures var r := TokenPrices(addresses, addressesPerRequest, tokens, platformId, nativeAssetAddress,
                                 nativePrice, fetch, codec);
      var mapped := MapTokens(addresses, tokens, platformId, codec);
      && (r == Failure(TooManyRequests)
          <==> ((addressesPerRequest == 0 && |addresses| > 0)
                || (addressesPerRequest > 0 && |addresses| > MaxPagesWorth * addressesPerRequest)))
      && (r == Failure(InvalidArrayLength)
          <==> (addressesPerRequest < 0
                && exists i :: 0 <= i < |mapped| && |OnPlatform(mapped, mapped[i].platform)| >= -addressesPerRequest))
  {
    ExceedsRateLimitIff(|addresses|, addressesPerRequest);
    var mapped := MapTokens(addresses, tokens, platformId, codec);
    RejectsPageCountOnTokens(mapped, addressesPerRequest);
    if addressesPerRequest == 0 && |addresses| == 0 {
      assert mapped == [];
    }
  }

  /** When the call succeeds and the native asset is requested, its price
      is the native price; every other key is the parsed pages' and
      back-filled prices'. */
  lemma TokenPricesInjectsNative(addresses: seq<string>, addressesPerRequest: int, tokens: seq<TokenDefinition>,
                                 platformId: string, nativeAssetAddress: string, nativePrice: Price,
                                 fetch: Request -> Obj<Price>, codec: AddressCodec, key: string)
    requires !ExceedsRateLimit(|addresses|, addressesPerRequest)
    requires !RejectsPageCount(GroupByPlatform(MapTokens(addresses, tokens, platformId, codec)), addressesPerRequest)
    ensures var r := TokenPrices(addresses, addressesPerRequest, tokens, platformId, nativeAssetAddress,
                                 nativePrice, fetch, codec);
      && r.Success?
      && (nativeAssetAddress in addresses ==> Get(r.value, nativeAssetAddress) == Some(nativePrice))
      && (key != nativeAssetAddress || nativeAssetAddress !in addresses ==>
            Get(r.value, key) == Get(RequestedPrices(addresses, addressesPerRequest, tokens, platformId, fetch, codec), key))
  {
  }

  // ---------------------------------------------------------------------
  // getTokenHistoricalPrices

  /** The market-chart request of `getTokenHistoricalPrices`, at the moment
      `nowMillis` (`Date.now()`). */
  function HistoricalRequest(address: string, days: int, nowMillis: int, tokens: seq<TokenDefinition>,
                             platformId: string, codec: AddressCodec): (r: Request)
    ensures r.MarketChartRequest?
    ensures r.rangeEnd * 1000 <= nowMillis < r.rangeEnd * 1000 + 1000
    ensures r.rangeEnd - r.rangeStart == days * TwentyFourHoursInSecs
    ensures var mapped := GetMappedTokenDetails(address, tokens, platformId, codec);
      r.platform == mapped.platform && r.contractAddress == mapped.address
  {
    var now := nowMillis / 1000;
    var end := now;
    var start := end - days * TwentyFourHoursInSecs;
    var mapped := GetMappedTokenDetails(address, tokens, platformId, codec);
    MarketChartRequest(mapped.platform, mapped.address, start, end)
  }
}
