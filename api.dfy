/** The data-shaping parts of the API service: reading a list out of a
    parsed response, the flag discipline of the generic fetch, grouping
    products by the first six characters of their code, ordering colours by
    name and choosing the client list to show. Network replies are input
    values. */
module Api {
  import opened Wrappers
  import opened JsText
  import opened JsValue

  // ---------------------------------------------------------------------------
  // parseApiResponse
  // ---------------------------------------------------------------------------

  const AdditionalParamsKey := "additionalParams"

  /** `parseApiResponse`: the list under `propertyName`, read from the
      response itself or, with `hasAdditionalParams`, only from its
      `additionalParams` object; an empty list when the list is absent. */
  function ParseApiResponse(result: map<string, Value>, propertyName: string, hasAdditionalParams: bool): (data: Value)
    ensures !hasAdditionalParams ==> data == (if propertyName in result then result[propertyName] else Arr([]))
    ensures hasAdditionalParams && AdditionalParamsKey in result && result[AdditionalParamsKey].Obj? ==>
      var extra := result[AdditionalParamsKey].props;
      data == (if propertyName in extra then extra[propertyName] else Arr([]))
    ensures hasAdditionalParams && (AdditionalParamsKey !in result || !Truthy(result[AdditionalParamsKey])) ==> data == Arr([])
  {
    if hasAdditionalParams then
      if AdditionalParamsKey in result && Truthy(result[AdditionalParamsKey]) && result[AdditionalParamsKey].Obj? then
        var additionalParams := result[AdditionalParamsKey].props;
        if propertyName in additionalParams then additionalParams[propertyName] else Arr([])
      else Arr([])
    else if propertyName in result then result[propertyName] else Arr([])
  }

  /** A list put at the top level is read back without additional
      parameters, and one put under `additionalParams` with them; with them,
      nothing at the top level other than `additionalParams` matters. */
  lemma ParseApiResponseLaws(result: map<string, Value>, propertyName: string, list: Value, extra: map<string, Value>)
    ensures ParseApiResponse(result[propertyName := list], propertyName, false) == list
    ensures ParseApiResponse(result[AdditionalParamsKey := Obj(extra[propertyName := list])], propertyName, true) == list
    ensures propertyName != AdditionalParamsKey ==>
      ParseApiResponse(result[propertyName := list], propertyName, true) == ParseApiResponse(result, propertyName, true)
  {
  }

  // ---------------------------------------------------------------------------
  // fetchData
  // ---------------------------------------------------------------------------

  /** What the request of `fetchData` came to. */
  datatype FetchOutcome =
    | HttpError(status: int)
    | RequestFailed
    | Received(result: map<string, Value>)

  /** The caller's state setters, as the lists of values each was given. */
  class FetchHandlers {
    var fetchingWrites: seq<bool>
    var dataWrites: seq<Value>
    var errorWrites: seq<bool>

    constructor ()
      ensures fetchingWrites == [] && dataWrites == [] && errorWrites == []
    {
      fetchingWrites, dataWrites, errorWrites := [], [], [];
    }
  }

  /** `fetchData`: the fetching flag is raised first and lowered last (and
      once more before the throw on an HTTP error); a received response
      stores the parsed data, any failure raises the error flag and stores
      an empty list. */
  method FetchData(handlers: FetchHandlers, outcome: FetchOutcome, parseData: map<string, Value> -> Value)
    modifies handlers
    ensures handlers.fetchingWrites ==
      old(handlers.fetchingWrites) + [true] + (if outcome.HttpError? then [false] else []) + [false]
    ensures outcome.Received? ==>
      handlers.dataWrites == old(handlers.dataWrites) + [parseData(outcome.result)] &&
      handlers.errorWrites == old(handlers.errorWrites)
    ensures !outcome.Received? ==>
      handlers.dataWrites == old(handlers.dataWrites) + [Arr([])] &&
      handlers.errorWrites == old(handlers.errorWrites) + [true]
  {
    handlers.fetchingWrites := handlers.fetchingWrites + [true];
    if outcome.Received? {
      var parsedData := parseData(outcome.result);
      handlers.dataWrites := handlers.dataWrites + [parsedData];
    } else {
      if outcome.HttpError? {
        handlers.fetchingWrites := handlers.fetchingWrites + [false];
      }
      handlers.errorWrites := handlers.errorWrites + [true];
      handlers.dataWrites := handlers.dataWrites + [Arr([])];
    }
    handlers.fetchingWrites := handlers.fetchingWrites + [false];
  }

  // ---------------------------------------------------------------------------
  // getProducts: grouping by code prefix
  // ---------------------------------------------------------------------------

  /** A product; only its code matters to the grouping. */
  datatype Product = Product(codprod: string, fields: map<string, Value>)

  datatype ProductGroup = ProductGroup(groupCode: string, products: seq<Product>)

  /** `codprod.slice(0, 6)`: the first six characters, or the whole code when shorter. */
  function GroupCode(p: Product): string {
    if |p.codprod| < 6 then p.codprod else p.codprod[..6]
  }

  /** The group code is the slice `codprod.slice(0, 6)`; it begins the
      product's code and is six characters long unless the code is shorter. */
  lemma GroupCodeIsPrefix(p: Product)
    ensures GroupCode(p) == Slice(p.codprod, 0, 6)
    ensures StartsWith(p.codprod, GroupCode(p))
    ensures |GroupCode(p)| == if |p.codprod| < 6 then |p.codprod| else 6
  {
    assert p.codprod[..|p.codprod|] == p.codprod;
  }

  /** The accumulator of the `reduce`: each product's group code, appended
      unless already present. */
  function GroupCodes(products: seq<Product>): seq<string>
    decreases |products|
  {
    if products == [] then []
    else
      var codes := GroupCodes(products[..|products| - 1]);
      var code := GroupCode(products[|products| - 1]);
      if code in codes then codes else codes + [code]
  }

  /** Some product before position `m` has group code `code`. */
  predicate AppearsBefore(products: seq<Product>, code: string, m: int)
    requires m <= |products|
  {
    exists l :: 0 <= l < m && GroupCode(products[l]) == code
  }

  /** `init` is a prefix of `products`, so what appears early in it appears
      early in `products`. */
  lemma AppearsBeforeInPrefix(init: seq<Product>, products: seq<Product>, code: string, m: nat)
    requires |init| <= |products| && init == products[..|init|] && m <= |init|
    requires AppearsBefore(init, code, m)
    ensures AppearsBefore(products, code, m)
  {
    var l :| 0 <= l < m && GroupCode(init[l]) == code;
    assert init[l] == products[l];
  }

  predicate Distinct(codes: seq<string>) {
    forall i, j :: 0 <= i < j < |codes| ==> codes[i] != codes[j]
  }

  /** Every product carrying a later code comes after some product carrying
      an earlier one. */
  predicate FirstAppearanceOrder(products: seq<Product>, codes: seq<string>) {
    forall i, j, m :: 0 <= i < j < |codes| && 0 <= m < |products| && GroupCode(products[m]) == codes[j] ==>
      AppearsBefore(products, codes[i], m)
  }

  /** The group codes are distinct. */
  lemma {:induction false} GroupCodesDistinct(products: seq<Product>)
    ensures Distinct(GroupCodes(products))
    decreases |products|
  {
    if products != [] {
      var init := products[..|products| - 1];
      var previous, code := GroupCodes(init), GroupCode(products[|products| - 1]);
      GroupCodesDistinct(init);
      if code !in previous {
        var codes := previous + [code];
        forall i, j | 0 <= i < j < |codes| ensures codes[i] != codes[j] {
          assert codes[i] == previous[i];
          if j < |previous| {
            assert codes[j] == previous[j];
          } else {
            assert codes[j] == code;
            assert previous[i] in previous;
          }
        }
      }
    }
  }

  /** The group codes are exactly the products' group codes. */
  lemma {:induction false} GroupCodesCover(products: seq<Product>)
    ensures forall m :: 0 <= m < |products| ==> GroupCode(products[m]) in GroupCodes(products)
    ensures forall code :: code in GroupCodes(products) ==> AppearsBefore(products, code, |products|)
    decreases |products|
  {
    if products != [] {
      var n := |products| - 1;
      var init := products[..n];
      GroupCodesCover(init);
      var codes := GroupCodes(products);
      forall code | code in codes ensures AppearsBefore(products, code, |products|) {
        if code in GroupCodes(init) {
          AppearsBeforeInPrefix(init, products, code, n);
        } else {
          assert GroupCode(products[n]) == code;
        }
      }
      forall m | 0 <= m < |products| ensures GroupCode(products[m]) in codes {
        if m < n { assert init[m] == products[m]; }
      }
    }
  }

  /** The group codes are in order of first appearance: every product
      carrying a later code comes after some product carrying an earlier one. */
  lemma GroupCodesOrder(products: seq<Product>)
    ensures FirstAppearanceOrder(products, GroupCodes(products))
  {
    var codes := GroupCodes(products);
    forall i, j, m | 0 <= i < j < |codes| && 0 <= m < |products| && GroupCode(products[m]) == codes[j]
      ensures AppearsBefore(products, codes[i], m)
    {
      GroupCodeOrderAt(products, i, j, m);
    }
  }

  /** One instance of the order of first appearance. */
  lemma {:induction false} GroupCodeOrderAt(products: seq<Product>, i: nat, j: nat, m: nat)
    requires var codes := GroupCodes(products);
      i < j < |codes| && m < |products| && GroupCode(products[m]) == codes[j]
    ensures AppearsBefore(products, GroupCodes(products)[i], m)
    decreases |products|
  {
    var n := |products| - 1;
    var init := products[..n];
    var previous := GroupCodes(init);
    var codes := GroupCodes(products);
    GroupCodesCover(init);
    assert codes[i] == previous[i];
    if m < n && j == |previous| {
      assert false;
    } else if m < n {
      assert init[m] == products[m];
      assert codes[j] == previous[j];
      GroupCodeOrderAt(init, i, j, m);
      AppearsBeforeInPrefix(init, products, previous[i], m);
    } else if j < |previous| {
      assert codes[j] == previous[j];
      var m' :| 0 <= m' < n && GroupCode(init[m']) == previous[j];
      GroupCodeOrderAt(init, i, j, m');
      AppearsBeforeInPrefix(init, products, previous[i], m');
      var l :| 0 <= l < m' && GroupCode(products[l]) == previous[i];
    } else {
      AppearsBeforeInPrefix(init, products, previous[i], n);
    }
  }

  /** The `reduce` that collects the group codes, pushing onto its accumulator. */
  method CollectGroupCodes(products: seq<Product>) returns (accumulator: seq<string>)
    ensures accumulator == GroupCodes(products)
  {
    accumulator := [];
    for k := 0 to |products|
      invariant accumulator == GroupCodes(products[..k])
    {
      assert products[..k + 1][..k] == products[..k];
      var code := GroupCode(products[k]);
      if code !in accumulator {
        accumulator := accumulator + [code];
      }
    }
    assert products[..|products|] == products;
  }

  /** `products.filter(p => p.codprod.startsWith(code))`: every product
      whose code starts with `code`, as often as it occurs, and no other. */
  function WithPrefix(products: seq<Product>, code: string): (r: seq<Product>)
    ensures forall p :: multiset(r)[p] == if StartsWith(p.codprod, code) then multiset(products)[p] else 0
    ensures forall i :: 0 <= i < |r| ==> StartsWith(r[i].codprod, code)
  {
    if products == [] then []
    else
      assert products == [products[0]] + products[1..];
      var rest := WithPrefix(products[1..], code);
      if StartsWith(products[0].codprod, code) then [products[0]] + rest else rest
  }

  /** The filter keeps the input order: filtering a concatenation is
      concatenating the filtered parts. */
  lemma {:induction false} WithPrefixAppend(a: seq<Product>, b: seq<Product>, code: string)
    ensures WithPrefix(a + b, code) == WithPrefix(a, code) + WithPrefix(b, code)
  {
    if a == [] {
      assert a + b == b;
    } else {
      assert (a + b)[1..] == a[1..] + b;
      WithPrefixAppend(a[1..], b, code);
    }
  }

  /** `productGroupCodes.map(...)`: one group per code, in code order. */
  function GroupProducts(products: seq<Product>): (groups: seq<ProductGroup>)
    ensures |groups| == |GroupCodes(products)|
    ensures forall i :: 0 <= i < |groups| ==>
      groups[i].groupCode == GroupCodes(products)[i] &&
      groups[i].products == WithPrefix(products, GroupCodes(products)[i])
  {
    var codes := GroupCodes(products);
    seq(|codes|, i requires 0 <= i < |codes| => ProductGroup(codes[i], WithPrefix(products, codes[i])))
  }

  /** A product is in the group for `code` exactly when it is one of the
      products and its code starts with `code`. */
  lemma WithPrefixMembership(products: seq<Product>, code: string, p: Product)
    ensures p in WithPrefix(products, code) <==> p in products && StartsWith(p.codprod, code)
  {
    assert p in products <==> multiset(products)[p] > 0;
    assert p in WithPrefix(products, code) <==> multiset(WithPrefix(products, code))[p] > 0;
  }

  /** A six-character prefix of a code is its group code. */
  lemma SixCharacterPrefix(p: Product, code: string)
    requires |code| == 6 && StartsWith(p.codprod, code)
    ensures code == GroupCode(p)
  {
    assert code == p.codprod[..6];
  }

  /** A product sits in the group for its own group code. */
  lemma InOwnGroup(products: seq<Product>, p: Product)
    requires p in products
    ensures exists i :: InGroup(products, p, i) && GroupProducts(products)[i].groupCode == GroupCode(p)
  {
    var codes := GroupCodes(products);
    GroupCodesCover(products);
    GroupCodeIsPrefix(p);
    var m :| 0 <= m < |products| && products[m] == p;
    assert GroupCode(products[m]) in codes;
    var i :| 0 <= i < |codes| && codes[i] == GroupCode(p);
    WithPrefixMembership(products, codes[i], p);
    assert InGroup(products, p, i) && GroupProducts(products)[i].groupCode == GroupCode(p);
  }

  /** With codes of at least six characters, a group code that begins a
      product's code is that product's group code. */
  lemma OnlyOwnGroup(q: Product, p: Product)
    requires |q.codprod| >= 6 && |p.codprod| >= 6
    requires StartsWith(p.codprod, GroupCode(q))
    ensures GroupCode(q) == GroupCode(p)
  {
    assert GroupCode(q) == p.codprod[..6];
  }

  /** The product `p` is in group `i`. */
  predicate InGroup(products: seq<Product>, p: Product, i: int) {
    0 <= i < |GroupProducts(products)| && p in GroupProducts(products)[i].products
  }

  /** A group that holds `p` has `p`'s group code, when all codes have at
      least six characters. */
  lemma InGroupHasOwnCode(products: seq<Product>, p: Product, i: int)
    requires forall q :: q in products ==> |q.codprod| >= 6
    requires InGroup(products, p, i)
    ensures GroupCodes(products)[i] == GroupCode(p)
  {
    var code := GroupCodes(products)[i];
    WithPrefixMembership(products, code, p);
    GroupCodesCover(products);
    assert AppearsBefore(products, code, |products|);
    var l :| 0 <= l < |products| && GroupCode(products[l]) == code;
    assert products[l] in products;
    OnlyOwnGroup(products[l], p);
  }

  /** When every code has at least six characters, each product lands in
      exactly one group: the one for its own first six characters. */
  lemma EachProductInOneGroup(products: seq<Product>, p: Product)
    requires p in products
    requires forall q :: q in products ==> |q.codprod| >= 6
    ensures exists i :: InGroup(products, p, i) && GroupProducts(products)[i].groupCode == GroupCode(p)
    ensures forall i, j :: InGroup(products, p, i) && InGroup(products, p, j) ==> i == j
  {
    InOwnGroup(products, p);
    GroupCodesDistinct(products);
    forall i, j | InGroup(products, p, i) && InGroup(products, p, j)
      ensures i == j
    {
      InGroupHasOwnCode(products, p, i);
      InGroupHasOwnCode(products, p, j);
    }
  }

  /** A code shorter than six characters that begins another code collects
      that other product too, so one product can sit in two groups. */
  lemma ShortCodeSharesProduct()
    ensures |GroupProducts([Product("12345", map[]), Product("123456", map[])])| == 2
    ensures Product("123456", map[]) in GroupProducts([Product("12345", map[]), Product("123456", map[])])[0].products
    ensures Product("123456", map[]) in GroupProducts([Product("12345", map[]), Product("123456", map[])])[1].products
  {
    var short, long := Product("12345", map[]), Product("123456", map[]);
    var products := [short, long];
    assert GroupCode(short) == "12345";
    assert GroupCode(long) == "123456";
    assert products[..1] == [short];
    assert [short][..0] == [];
    assert GroupCodes([short]) == ["12345"];
    assert GroupCodes(products) == ["12345", "123456"];
    assert StartsWith(long.codprod, "12345");
    assert multiset(WithPrefix(products, "12345"))[long] > 0;
    assert multiset(WithPrefix(products, "123456"))[long] > 0;
  }

  /** What `getProducts` ends with: the product list it shows and its groups. */
  datatype ProductListing = ProductListing(groupedProducts: seq<ProductGroup>, filteredProducts: seq<Product>)

  /** The reply handling of `getProducts`: a filtered reply shows its
      filtered products (none when absent), otherwise the full list; a reply
      with neither flag nor list fails (`None`), which shows an empty list. */
  function ProductsOutcome(wasFiltered: Value, products: Option<seq<Product>>, filteredProducts: Option<seq<Product>>)
    : (r: Option<ProductListing>)
    ensures r.None? <==> !Truthy(wasFiltered) && products.None?
    ensures r.Some? ==> r.value.filteredProducts == (if Truthy(wasFiltered) then filteredProducts.GetOr([]) else products.value)
    ensures r.Some? ==> r.value.groupedProducts == GroupProducts(r.value.filteredProducts)
  {
    var shown := if Truthy(wasFiltered) then Some(filteredProducts.GetOr([])) else products;
    match shown
    case None => None
    case Some(list) => Some(ProductListing(GroupProducts(list), list))
  }

  // ---------------------------------------------------------------------------
  // getColors: ordering by name
  // ---------------------------------------------------------------------------

  datatype Color = Color(id: int, descricao: string, cor: string)

  /** Ascending by `cor` under the `<` of JavaScript strings. */
  predicate SortedByCor(colors: seq<Color>) {
    forall i, j :: 0 <= i < j < |colors| ==> !StrLess(colors[j].cor, colors[i].cor)
  }

  /** Every colour in `colors` sorts at or after `cor`. */
  predicate NoneBelow(colors: seq<Color>, cor: string) {
    forall i :: 0 <= i < |colors| ==> !StrLess(colors[i].cor, cor)
  }

  /** Being at or after `cor` carries over to a list with the same colours plus `c`. */
  lemma NoneBelowGrown(r: seq<Color>, t: seq<Color>, c: Color, cor: string)
    requires NoneBelow(t, cor) && !StrLess(c.cor, cor)
    requires multiset(r) == multiset(t) + multiset{c}
    ensures NoneBelow(r, cor)
  {
    forall i | 0 <= i < |r| ensures !StrLess(r[i].cor, cor) {
      assert r[i] in multiset(r);
      if r[i] != c {
        assert r[i] in multiset(t);
        var k :| 0 <= k < |t| && t[k] == r[i];
      }
    }
  }

  /** A colour not above the head of a sorted list is not above any of it. */
  lemma AtMostHeadSorted(c: Color, sorted: seq<Color>)
    requires SortedByCor(sorted) && sorted != [] && !StrLess(sorted[0].cor, c.cor)
    ensures NoneBelow(sorted, c.cor)
  {
    forall j | 0 <= j < |sorted| ensures !StrLess(sorted[j].cor, c.cor) {
      if j != 0 && sorted[j].cor != sorted[0].cor {
        StrLessTotal(sorted[0].cor, sorted[j].cor);
        if StrLess(sorted[j].cor, c.cor) {
          StrLessTransitive(sorted[0].cor, sorted[j].cor, c.cor);
        }
      }
    }
  }

  /** `<` on strings never holds both ways. */
  lemma StrLessAsymmetric(a: string, b: string)
    requires StrLess(a, b)
    ensures !StrLess(b, a)
  {
    if StrLess(b, a) {
      StrLessTransitive(a, b, a);
      StrLessIrreflexive(a);
    }
  }

  /** Inserting `c` into a sorted list: it goes in front of the first colour
      whose name is not below its own, so colours of the same name already in
      the list stay after it. */
  function InsertByCor(c: Color, sorted: seq<Color>): (r: seq<Color>)
    requires SortedByCor(sorted)
    ensures SortedByCor(r)
    ensures multiset(r) == multiset(sorted) + multiset{c}
  {
    if sorted == [] then [c]
    else if !StrLess(sorted[0].cor, c.cor) then
      AtMostHeadSorted(c, sorted);
      [c] + sorted
    else
      var tail := sorted[1..];
      assert sorted == [sorted[0]] + tail;
      assert NoneBelow(tail, sorted[0].cor);
      var rest := InsertByCor(c, tail);
      StrLessAsymmetric(sorted[0].cor, c.cor);
      NoneBelowGrown(rest, tail, c, sorted[0].cor);
      [sorted[0]] + rest
  }

  /** `colors.sort(...)` with the comparator of `getColors`. */
  function SortByCor(colors: seq<Color>): (r: seq<Color>)
    ensures SortedByCor(r)
    ensures multiset(r) == multiset(colors)
  {
    if colors == [] then []
    else
      assert colors == [colors[0]] + colors[1..];
      InsertByCor(colors[0], SortByCor(colors[1..]))
  }

  /** The reply handling of `getColors`: the colours sorted by name, or
      `None` when the reply has no colour list and the sort throws (the
      error flag is raised and an empty list shown). */
  function ColorsOutcome(colors: Option<seq<Color>>): (r: Option<seq<Color>>)
    ensures r.Some? <==> colors.Some?
    ensures r.Some? ==> SortedByCor(r.value) && multiset(r.value) == multiset(colors.value)
    ensures r.Some? ==> forall cor :: Named(r.value, cor) == Named(colors.value, cor)
  {
    match colors
    case None => None
    case Some(list) =>
      SortByCorKeepsTies(list);
      Some(SortByCor(list))
  }

  /** The colours named `cor`, in list order. */
  function Named(colors: seq<Color>, cor: string): seq<Color>
  {
    if colors == [] then []
    else (if colors[0].cor == cor then [colors[0]] else []) + Named(colors[1..], cor)
  }

  lemma NamedCons(x: Color, rest: seq<Color>, cor: string)
    ensures Named([x] + rest, cor) == (if x.cor == cor then [x] else []) + Named(rest, cor)
  {
    assert ([x] + rest)[1..] == rest;
  }

  lemma SortedTail(sorted: seq<Color>)
    requires SortedByCor(sorted) && sorted != []
    ensures SortedByCor(sorted[1..]) && sorted == [sorted[0]] + sorted[1..]
  {
  }

  /** Inserting `c` puts it in front of the colours of its name already there. */
  lemma {:induction false} InsertByCorStable(c: Color, sorted: seq<Color>, cor: string)
    requires SortedByCor(sorted)
    ensures Named(InsertByCor(c, sorted), cor) == (if c.cor == cor then [c] else []) + Named(sorted, cor)
  {
    if sorted == [] {
      NamedCons(c, [], cor);
    } else if !StrLess(sorted[0].cor, c.cor) {
      NamedCons(c, sorted, cor);
    } else {
      var head, tail := sorted[0], sorted[1..];
      SortedTail(sorted);
      InsertByCorStable(c, tail, cor);
      NamedCons(head, InsertByCor(c, tail), cor);
      NamedCons(head, tail, cor);
      StrLessIrreflexive(c.cor);
    }
  }

  /** The sort is stable, as `Array.prototype.sort` is: colours that share a
      name keep their input order. */
  lemma {:induction false} SortByCorStable(colors: seq<Color>, cor: string)
    ensures Named(SortByCor(colors), cor) == Named(colors, cor)
  {
    if colors != [] {
      SortByCorStable(colors[1..], cor);
      InsertByCorStable(colors[0], SortByCor(colors[1..]), cor);
    }
  }

  lemma SortByCorKeepsTies(colors: seq<Color>)
    ensures forall cor :: Named(SortByCor(colors), cor) == Named(colors, cor)
  {
    forall cor ensures Named(SortByCor(colors), cor) == Named(colors, cor) {
      SortByCorStable(colors, cor);
    }
  }

  /** Two sorted lists with the same colours and distinct names start alike. */
  lemma SortedHeadsAgree(a: seq<Color>, b: seq<Color>)
    requires SortedByCor(a) && SortedByCor(b) && multiset(a) == multiset(b) && a != []
    requires forall i, j :: 0 <= i < j < |a| ==> a[i].cor != a[j].cor
    ensures b != [] && a[0] == b[0]
  {
    assert a[0] in multiset(b);
    var ib :| 0 <= ib < |b| && b[ib] == a[0];
    assert b[0] in multiset(a);
    var ia :| 0 <= ia < |a| && a[ia] == b[0];
    if ia != 0 && ib != 0 {
      StrLessTotal(a[0].cor, a[ia].cor);
      assert false;
    }
  }

  /** Removing equal heads keeps the multisets equal. */
  lemma MultisetTails(a: seq<Color>, b: seq<Color>)
    requires a != [] && b != [] && a[0] == b[0] && multiset(a) == multiset(b)
    ensures multiset(a[1..]) == multiset(b[1..])
  {
    assert a == [a[0]] + a[1..] && b == [b[0]] + b[1..];
    assert multiset(a[1..]) == multiset(a) - multiset{a[0]};
    assert multiset(b[1..]) == multiset(b) - multiset{b[0]};
  }

  /** A list sorted by distinct names is the only sorted arrangement of its
      colours, so the sort's result is fully determined. */
  lemma {:induction false} SortedByCorUnique(a: seq<Color>, b: seq<Color>)
    requires SortedByCor(a) && SortedByCor(b) && multiset(a) == multiset(b)
    requires forall i, j :: 0 <= i < j < |a| ==> a[i].cor != a[j].cor
    ensures a == b
    decreases |a|
  {
    if a == [] {
      assert |b| == |multiset(b)| == 0;
    } else {
      SortedHeadsAgree(a, b);
      MultisetTails(a, b);
      SortedByCorUnique(a[1..], b[1..]);
      assert a == [a[0]] + a[1..] && b == [b[0]] + b[1..];
    }
  }

  // ---------------------------------------------------------------------------
  // getClients: the list shown
  // ---------------------------------------------------------------------------

  /** The list `getClients` shows: the reply's filtered clients when it says
      it filtered, its full client list otherwise, a missing list being empty. */
  function FilteredClients<T>(wasFiltered: Value, clients: Option<seq<T>>, filteredClients: Option<seq<T>>): (r: seq<T>)
    ensures Truthy(wasFiltered) ==> r == filteredClients.GetOr([])
    ensures !Truthy(wasFiltered) ==> r == clients.GetOr([])
  {
    if Truthy(wasFiltered) then filteredClients.GetOr([]) else clients.GetOr([])
  }

  /** `getClients` and `getProducts` choose the list to show in the same way.
      They differ only when the reply says it did not filter and has no full
      list: `getProducts` fails there, while `getClients` shows an empty list. */
  lemma ClientsChoiceMatchesProducts(wasFiltered: Value, products: Option<seq<Product>>,
                                     filteredProducts: Option<seq<Product>>)
    ensures ProductsOutcome(wasFiltered, products, filteredProducts).Some? ==>
      ProductsOutcome(wasFiltered, products, filteredProducts).value.filteredProducts
        == FilteredClients(wasFiltered, products, filteredProducts)
    ensures ProductsOutcome(wasFiltered, products, filteredProducts).None? <==>
      !Truthy(wasFiltered) && products.None?
    ensures ProductsOutcome(wasFiltered, products, filteredProducts).None? ==>
      FilteredClients(wasFiltered, products, filteredProducts) == []
  {
  }
}
