/**
 * The table accessor: put, update, get and a paginated scan over one table.
 * Every call into the table service is a parameter (a function from the
 * request the accessor builds to the service's answer), so each contract
 * can say exactly what is sent and what comes back.
 */
module DynamoDB {
  import opened Wrappers
  import opened Errors
  import opened Dicts
  import opened Strings
  import opened Sorting

  /** A table record: attribute name to value. */
  type Item = Dict<Value>

  // ---------------------------------------------------------------------
  // Null stripping

  /**
   * The entries of data whose value is neither None nor empty, in order.
   * add_item and update_item call `self.remove_none_attrs`, but the accessor
   * class has no base class and defines no such method, so this rule is
   * assumed rather than taken from its code.
   */
  function RemoveNoneAttrs(data: Dict<Value>): (r: Dict<Value>)
    ensures |r| <= |data|
    ensures forall i :: 0 <= i < |r| ==> !IsNoneOrEmpty(r[i].1)
    ensures forall e :: e in r ==> e in data
  {
    if data == [] then []
    else if IsNoneOrEmpty(data[0].1) then RemoveNoneAttrs(data[1..])
    else [data[0]] + RemoveNoneAttrs(data[1..])
  }

  /** Every populated entry survives, and the survivors keep data's order. */
  lemma {:induction false} RemoveNoneAttrsKeepsOrder(data: Dict<Value>)
    ensures forall e :: e in data && !IsNoneOrEmpty(e.1) ==> e in RemoveNoneAttrs(data)
    ensures Subsequence(RemoveNoneAttrs(data), data)
  {
    if data != [] {
      var rest := RemoveNoneAttrs(data[1..]);
      RemoveNoneAttrsKeepsOrder(data[1..]);
      assert forall e :: e in data ==> e == data[0] || e in data[1..];
      if !IsNoneOrEmpty(data[0].1) {
        assert ([data[0]] + rest)[1..] == rest;
      }
    }
  }

  /** An attribute survives exactly when it is present with a populated value. */
  lemma {:induction false} RemoveNoneAttrsGet(data: Dict<Value>, k: string)
    requires UniqueKeys(data)
    ensures Get(RemoveNoneAttrs(data), k) ==
      if Get(data, k).Some? && !IsNoneOrEmpty(Get(data, k).value) then Get(data, k) else None
  {
    if data != [] {
      RemoveNoneAttrsGet(data[1..], k);
      if data[0].0 == k {
        GetMissing(data[1..], k);
      }
    }
  }

  lemma {:induction false} RemoveNoneAttrsUnique(data: Dict<Value>)
    requires UniqueKeys(data)
    ensures UniqueKeys(RemoveNoneAttrs(data))
  {
    if data != [] {
      RemoveNoneAttrsUnique(data[1..]);
      var t := RemoveNoneAttrs(data[1..]);
      forall j | 0 <= j < |t| ensures t[j].0 != data[0].0 {
        assert t[j] in data[1..];
      }
    }
  }

  // ---------------------------------------------------------------------
  // add_item

  /** The Item add_item writes: `{**p_key, **data}` after stripping data. */
  function PutItemRequest(pKey: Dict<Value>, data: Dict<Value>): (item: Item)
    requires UniqueKeys(pKey) && UniqueKeys(data)
    ensures UniqueKeys(item)
    ensures Keys(pKey) <= Keys(item)
  {
    RemoveNoneAttrsUnique(data);
    MergeUnique(pKey, RemoveNoneAttrs(data));
    MergeKeepsOrder(pKey, RemoveNoneAttrs(data));
    Merge(pKey, RemoveNoneAttrs(data))
  }

  /**
   * A populated data attribute wins over the key's; every other name keeps
   * the key's value (or is absent); a None or empty data value is never written.
   */
  lemma PutItemRequestGet(pKey: Dict<Value>, data: Dict<Value>, k: string)
    requires UniqueKeys(pKey) && UniqueKeys(data)
    ensures Get(PutItemRequest(pKey, data), k) ==
      if Get(data, k).Some? && !IsNoneOrEmpty(Get(data, k).value) then Get(data, k) else Get(pKey, k)
    ensures Get(PutItemRequest(pKey, data), k).Some? <==>
      Get(pKey, k).Some? || (Get(data, k).Some? && !IsNoneOrEmpty(Get(data, k).value))
  {
    RemoveNoneAttrsUnique(data);
    RemoveNoneAttrsGet(data, k);
    MergeGet(pKey, RemoveNoneAttrs(data), k);
  }

  /** add_item: write the merged record; a failure of the write is re-raised unchanged. */
  function AddItem(pKey: Dict<Value>, data: Dict<Value>, put: Item -> Result<Dict<Value>, Error>)
    : (r: Result<Dict<Value>, Error>)
    requires UniqueKeys(pKey) && UniqueKeys(data)
    ensures put(PutItemRequest(pKey, data)).Ok? ==> r == put(PutItemRequest(pKey, data))
    ensures put(PutItemRequest(pKey, data)).Err? ==> r.Err? && r.error == put(PutItemRequest(pKey, data)).error
  {
    var resp := put(PutItemRequest(pKey, data));
    if resp.Err? then Err(resp.error) else resp
  }

  /** The record of the end-to-end scenario: the null "tag" is dropped. */
  lemma AddItemDropsNullAttribute()
    ensures PutItemRequest([("id", Str("1"))], [("name", Str("x")), ("tag", Null)])
         == [("id", Str("1")), ("name", Str("x"))]
  {
    assert Assign([("id", Str("1"))], "name", Str("x")) == [("id", Str("1")), ("name", Str("x"))];
  }

  // ---------------------------------------------------------------------
  // update_item

  /** The clause that sets one attribute through its alias and placeholder. */
  function Clause(name: string): string {
    "#" + name + " = :" + name
  }

  function Clauses(data: Dict<Value>): seq<string> {
    seq(|data|, i requires 0 <= i < |data| => Clause(data[i].0))
  }

  /** `f"SET {', '.join(...)}"` over the attributes in order. */
  function UpdateExpression(data: Dict<Value>): string {
    "SET " + Join(", ", Clauses(data))
  }

  /** ExpressionAttributeNames: "#k" stands for k. */
  function AttributeNames(data: Dict<Value>): Dict<string> {
    seq(|data|, i requires 0 <= i < |data| => ("#" + data[i].0, data[i].0))
  }

  /** ExpressionAttributeValues: ":k" stands for k's value. */
  function AttributeValues(data: Dict<Value>): Dict<Value> {
    seq(|data|, i requires 0 <= i < |data| => (":" + data[i].0, data[i].1))
  }

  datatype UpdateRequest = UpdateRequest(
    key: Dict<Value>,
    updateExpression: string,
    attributeNames: Dict<string>,
    attributeValues: Dict<Value>)

  /** The request update_item sends: the key as given, the rest built from the stripped data. */
  function UpdateItemRequest(pKey: Dict<Value>, data: Dict<Value>): (req: UpdateRequest)
    ensures req.key == pKey
    ensures |req.attributeNames| == |req.attributeValues| == |RemoveNoneAttrs(data)|
    ensures forall i :: 0 <= i < |req.attributeValues| ==> !IsNoneOrEmpty(req.attributeValues[i].1)
  {
    var kept := RemoveNoneAttrs(data);
    UpdateRequest(pKey, UpdateExpression(kept), AttributeNames(kept), AttributeValues(kept))
  }

  lemma PrefixedInjective(p: string, a: string, b: string)
    requires p + a == p + b
    ensures a == b
  {
    assert a == (p + a)[|p|..];
    assert b == (p + b)[|p|..];
  }

  /** Distinct attribute names give distinct aliases and distinct placeholders. */
  lemma AliasesUnique(data: Dict<Value>)
    requires UniqueKeys(data)
    ensures UniqueKeys(AttributeNames(data))
    ensures UniqueKeys(AttributeValues(data))
  {
    var names := AttributeNames(data);
    var values := AttributeValues(data);
    forall i, j | 0 <= i < j < |data| ensures names[i].0 != names[j].0 && values[i].0 != values[j].0 {
      if names[i].0 == names[j].0 {
        PrefixedInjective("#", data[i].0, data[j].0);
      }
      if values[i].0 == values[j].0 {
        PrefixedInjective(":", data[i].0, data[j].0);
      }
    }
  }

  /** "#k" is in the alias map exactly for the attributes k of data, and stands for k. */
  lemma AttributeNamesGet(data: Dict<Value>, k: string)
    requires UniqueKeys(data)
    ensures Get(AttributeNames(data), "#" + k) == if Get(data, k).Some? then Some(k) else None
  {
    var names := AttributeNames(data);
    AliasesUnique(data);
    if Get(data, k).Some? {
      var i := GetIndex(data, k);
      GetAt(names, i);
    } else {
      GetMissing(data, k);
      GetMissing(names, "#" + k);
      forall i | 0 <= i < |names| ensures names[i].0 != "#" + k {
        if names[i].0 == "#" + k {
          PrefixedInjective("#", data[i].0, k);
        }
      }
    }
  }

  /** ":k" is in the placeholder map exactly for the attributes k of data, and holds k's value. */
  lemma AttributeValuesGet(data: Dict<Value>, k: string)
    requires UniqueKeys(data)
    ensures Get(AttributeValues(data), ":" + k) == Get(data, k)
  {
    var values := AttributeValues(data);
    AliasesUnique(data);
    if Get(data, k).Some? {
      var i := GetIndex(data, k);
      GetAt(values, i);
    } else {
      GetMissing(data, k);
      GetMissing(values, ":" + k);
      forall i | 0 <= i < |values| ensures values[i].0 != ":" + k {
        if values[i].0 == ":" + k {
          PrefixedInjective(":", data[i].0, k);
        }
      }
    }
  }

  /**
   * What update_item sends, key by key: "#k" and ":k" are defined exactly
   * for the populated attributes of data, with k and its value; the maps have
   * no colliding entries; and the i-th clause sets the i-th alias to the
   * i-th placeholder.
   */
  lemma UpdateItemRequestAliases(pKey: Dict<Value>, data: Dict<Value>, k: string)
    requires UniqueKeys(data)
    ensures var req := UpdateItemRequest(pKey, data);
      var populated := Get(data, k).Some? && !IsNoneOrEmpty(Get(data, k).value);
      && UniqueKeys(req.attributeNames) && UniqueKeys(req.attributeValues)
      && Get(req.attributeNames, "#" + k) == (if populated then Some(k) else None)
      && Get(req.attributeValues, ":" + k) == (if populated then Get(data, k) else None)
      && |Clauses(RemoveNoneAttrs(data))| == |req.attributeNames|
      && forall i :: 0 <= i < |req.attributeNames| ==>
           Clauses(RemoveNoneAttrs(data))[i] == req.attributeNames[i].0 + " = " + req.attributeValues[i].0
  {
    var kept := RemoveNoneAttrs(data);
    RemoveNoneAttrsUnique(data);
    RemoveNoneAttrsGet(data, k);
    AliasesUnique(kept);
    AttributeNamesGet(kept, k);
    AttributeValuesGet(kept, k);
    forall i | 0 <= i < |kept| ensures Clause(kept[i].0) == "#" + kept[i].0 + " = " + (":" + kept[i].0) {
      assert "#" + kept[i].0 + " = :" + kept[i].0 == "#" + kept[i].0 + " = " + (":" + kept[i].0);
    }
  }

  /**
   * The update expression is "SET " and then, split at its commas, exactly
   * one clause per populated attribute in data's order (attribute names
   * without commas); with no populated attribute it is "SET " alone.
   */
  lemma UpdateExpressionClauses(pKey: Dict<Value>, data: Dict<Value>)
    requires forall i :: 0 <= i < |data| ==> ',' !in data[i].0
    ensures var expr := UpdateItemRequest(pKey, data).updateExpression;
      var kept := RemoveNoneAttrs(data);
      && |expr| >= 4 && expr[..4] == "SET "
      && (kept == [] ==> expr == "SET ")
      && (kept != [] ==>
            var pieces := Split(expr[4..], ',');
            && |pieces| == |kept|
            && pieces[0] == Clause(kept[0].0)
            && forall i :: 1 <= i < |kept| ==> pieces[i] == " " + Clause(kept[i].0))
  {
    var kept := RemoveNoneAttrs(data);
    var cs := Clauses(kept);
    var expr := UpdateExpression(kept);
    assert expr[4..] == Join(", ", cs);
    if kept != [] {
      forall i | 0 <= i < |cs| ensures ',' !in cs[i] {
        assert kept[i] in data;
        assert ',' !in kept[i].0;
      }
      SplitJoin(cs);
    }
  }

  /** update_item: send the built request; a failure of the update is re-raised unchanged. */
  function UpdateItem(pKey: Dict<Value>, data: Dict<Value>, update: UpdateRequest -> Result<Dict<Value>, Error>)
    : (r: Result<Dict<Value>, Error>)
    ensures update(UpdateItemRequest(pKey, data)).Ok? ==> r == update(UpdateItemRequest(pKey, data))
    ensures update(UpdateItemRequest(pKey, data)).Err? ==>
      r.Err? && r.error == update(UpdateItemRequest(pKey, data)).error
  {
    var resp := update(UpdateItemRequest(pKey, data));
    if resp.Err? then Err(resp.error) else resp
  }

  // ---------------------------------------------------------------------
  // get_item

  /** The errors get_item logs and turns into an empty result. */
  predicate Swallowed(e: Error) {
    e.ResourceNotFound? || e.ClientError? || e.ParamValidation?
  }

  /**
   * get_item: the service's response, or an empty mapping when the lookup
   * raised not-found, a client error or a validation error.
   */
  function GetItem(primaryKey: Dict<Value>, get: Dict<Value> -> Result<Dict<Value>, Error>)
    : (r: Result<Dict<Value>, Error>)
    ensures get(primaryKey).Ok? ==> r == get(primaryKey)
    ensures get(primaryKey).Err? && Swallowed(get(primaryKey).error) ==> r == Ok([])
    ensures r.Err? <==> get(primaryKey).Err? && !Swallowed(get(primaryKey).error)
    ensures r.Err? ==> r.error == get(primaryKey).error
  {
    match get(primaryKey)
    case Ok(resp) => Ok(resp)
    case Err(e) => if Swallowed(e) then Ok([]) else Err(e)
  }

  // ---------------------------------------------------------------------
  // scan_table

  /** The response field the scan loop reads its continuation token from, spelled as in the code. */
  const LastEvaluateKey := "LastEvaluateKey"

  /** The name under which the table service reports the continuation token. */
  const LastEvaluatedKey := "LastEvaluatedKey"

  /** One scan response: its "Items" (absent or a list) and its other top-level fields. */
  datatype ScanResponse = ScanResponse(items: Option<seq<Item>>, fields: Dict<Value>)

  /** The continuation token, when the response carries a truthy one under tokenKey. */
  function Token(resp: ScanResponse, tokenKey: string): Option<Value> {
    var v := Get(resp.fields, tokenKey);
    if v.Some? && Truthy(v.value) then v else None
  }

  /**
   * A token is the truthy value of an entry under tokenKey; there is none
   * without such an entry, and in a response with distinct field names the
   * loop continues exactly when that entry's value is truthy.
   */
  lemma TokenInEntries(resp: ScanResponse, tokenKey: string)
    ensures var t := Token(resp, tokenKey);
      && (t.Some? ==> (tokenKey, t.value) in resp.fields && Truthy(t.value))
      && (tokenKey !in Keys(resp.fields) ==> t.None?)
      && (UniqueKeys(resp.fields) ==>
            forall i :: 0 <= i < |resp.fields| && resp.fields[i].0 == tokenKey ==>
              (t.Some? <==> Truthy(resp.fields[i].1)))
  {
    GetMissing(resp.fields, tokenKey);
    GetFound(resp.fields, tokenKey);
    if UniqueKeys(resp.fields) {
      forall i | 0 <= i < |resp.fields| && resp.fields[i].0 == tokenKey {
        GetAt(resp.fields, i);
      }
    }
  }

  /**
   * After the i-th response (0 = the first scan) the loop sends another
   * request: the response arrived, it has Items unless it is the first, and
   * it carries a truthy token.
   */
  predicate AsksAgain(responses: seq<Result<ScanResponse, Error>>, tokenKey: string, i: nat)
    requires i < |responses|
  {
    && responses[i].Ok?
    && (i == 0 || responses[i].value.items.Some?)
    && Token(responses[i].value, tokenKey).Some?
  }

  /** The first response at or after from that ends the loop (|responses| if none does). */
  function LastPage(responses: seq<Result<ScanResponse, Error>>, tokenKey: string, from: nat): (n: nat)
    requires from <= |responses|
    ensures from <= n <= |responses|
    ensures forall j :: from <= j < n ==> AsksAgain(responses, tokenKey, j)
    ensures n < |responses| ==> !AsksAgain(responses, tokenKey, n)
    decreases |responses| - from
  {
    if from == |responses| || !AsksAgain(responses, tokenKey, from) then from
    else LastPage(responses, tokenKey, from + 1)
  }

  /** The first visited response that does not ask again is the last one the loop visits. */
  lemma ScanEndsAt(responses: seq<Result<ScanResponse, Error>>, tokenKey: string, i: nat)
    requires i <= LastPage(responses, tokenKey, 0) < |responses|
    requires !AsksAgain(responses, tokenKey, i)
    ensures i == LastPage(responses, tokenKey, 0)
  {
  }

  /** The service eventually answers with a response that ends the loop. */
  predicate Stops(responses: seq<Result<ScanResponse, Error>>, tokenKey: string) {
    LastPage(responses, tokenKey, 0) < |responses|
  }

  /** A response's items; a first response without "Items" counts as empty. */
  function ItemsOf(resp: Result<ScanResponse, Error>): seq<Item> {
    if resp.Ok? && resp.value.items.Some? then resp.value.items.value else []
  }

  /** The items of the first n responses, page after page. */
  function Gathered(responses: seq<Result<ScanResponse, Error>>, n: nat): seq<Item>
    requires n <= |responses|
  {
    if n == 0 then [] else Gathered(responses, n - 1) + ItemsOf(responses[n - 1])
  }

  /** How many items the first n responses hold together. */
  function ItemCount(responses: seq<Result<ScanResponse, Error>>, n: nat): nat
    requires n <= |responses|
  {
    if n == 0 then 0 else ItemCount(responses, n - 1) + |ItemsOf(responses[n - 1])|
  }

  lemma {:induction false} GatheredLength(responses: seq<Result<ScanResponse, Error>>, n: nat)
    requires n <= |responses|
    ensures |Gathered(responses, n)| == ItemCount(responses, n)
  {
    if n > 0 {
      GatheredLength(responses, n - 1);
    }
  }

  /** The ExclusiveStartKey of each of the first n + 1 requests: none, then each token in turn. */
  function StartKeys(responses: seq<Result<ScanResponse, Error>>, tokenKey: string, n: nat): seq<Option<Value>>
    requires n <= |responses|
  {
    if n == 0 then [None]
    else StartKeys(responses, tokenKey, n - 1)
         + [if responses[n - 1].Ok? then Token(responses[n - 1].value, tokenKey) else None]
  }

  /**
   * What the scan loop gathers from the service's responses, before sorting:
   * the error of the response that ended it, a TypeError if that follow-up
   * response has no Items, or else the items of every response it visited.
   */
  function ScanPages(responses: seq<Result<ScanResponse, Error>>, tokenKey: string): Result<seq<Item>, Error>
    requires Stops(responses, tokenKey)
  {
    var n := LastPage(responses, tokenKey, 0);
    if responses[n].Err? then Err(responses[n].error)
    else if n > 0 && responses[n].value.items.None? then Err(TypeError)
    else Ok(Gathered(responses, n + 1))
  }

  /**
   * A scan that succeeds holds as many items as the responses it visited,
   * which are exactly the responses up to the first one without a token.
   */
  lemma ScanCountsVisitedItems(responses: seq<Result<ScanResponse, Error>>, tokenKey: string)
    requires Stops(responses, tokenKey)
    ensures var n := LastPage(responses, tokenKey, 0);
      ScanPages(responses, tokenKey).Ok? ==>
        && |ScanPages(responses, tokenKey).value| == ItemCount(responses, n + 1)
        && Token(responses[n].value, tokenKey).None?
        && forall j :: 0 <= j < n ==> responses[j].Ok? && Token(responses[j].value, tokenKey).Some?
  {
    var n := LastPage(responses, tokenKey, 0);
    GatheredLength(responses, n + 1);
    forall j | 0 <= j < n ensures responses[j].Ok? && Token(responses[j].value, tokenKey).Some? {
      assert AsksAgain(responses, tokenKey, j);
    }
  }

  /**
   * One request per visited response: the first has no ExclusiveStartKey,
   * and each later one passes the previous response's token unchanged.
   */
  lemma {:induction false} StartKeysFollowTokens(responses: seq<Result<ScanResponse, Error>>, tokenKey: string, n: nat)
    requires n <= LastPage(responses, tokenKey, 0)
    requires n < |responses|
    ensures |StartKeys(responses, tokenKey, n)| == n + 1
    ensures StartKeys(responses, tokenKey, n)[0] == None
    ensures forall j :: 0 <= j < n ==>
      && responses[j].Ok?
      && Get(responses[j].value.fields, tokenKey).Some?
      && Truthy(Get(responses[j].value.fields, tokenKey).value)
      && StartKeys(responses, tokenKey, n)[j + 1] == Get(responses[j].value.fields, tokenKey)
  {
    if n > 0 {
      StartKeysFollowTokens(responses, tokenKey, n - 1);
      assert AsksAgain(responses, tokenKey, n - 1);
      var previous := StartKeys(responses, tokenKey, n - 1);
      var last := Token(responses[n - 1].value, tokenKey);
      assert StartKeys(responses, tokenKey, n) == previous + [last];
      assert last == Get(responses[n - 1].value.fields, tokenKey);
    }
  }

  /**
   * scan_table: scan, then rescan from each truthy "LastEvaluateKey"
   * while there is one, gathering the items, and sort them by order.
   * Returns the result and the ExclusiveStartKey of every request sent.
   */
  method ScanTable(responses: seq<Result<ScanResponse, Error>>, order: (Item, Item) -> bool)
    returns (r: Result<seq<Item>, Error>, startKeys: seq<Option<Value>>)
    requires Stops(responses, LastEvaluateKey)
    requires TotalPreorder(order)
    ensures startKeys == StartKeys(responses, LastEvaluateKey, LastPage(responses, LastEvaluateKey, 0))
    ensures r.Err? <==> ScanPages(responses, LastEvaluateKey).Err?
    ensures r.Err? ==> r.error == ScanPages(responses, LastEvaluateKey).error
    ensures r.Ok? ==> SortedBy(r.value, order)
    ensures r.Ok? ==> multiset(r.value) == multiset(ScanPages(responses, LastEvaluateKey).value)
  {
    ghost var n := LastPage(responses, LastEvaluateKey, 0);
    startKeys := [None];
    var resp := responses[0];
    if resp.Err? {
      assert !AsksAgain(responses, LastEvaluateKey, 0);
      return Err(resp.error), startKeys;
    }
    var items := if resp.value.items.Some? then resp.value.items.value else [];
    var i := 1;
    while Token(resp.value, LastEvaluateKey).Some?
      invariant 1 <= i <= n + 1
      invariant resp == responses[i - 1] && resp.Ok?
      invariant i == 1 || resp.value.items.Some?
      invariant items == Gathered(responses, i)
      invariant startKeys == StartKeys(responses, LastEvaluateKey, i - 1)
      decreases n + 1 - i
    {
      assert AsksAgain(responses, LastEvaluateKey, i - 1);
      assert i - 1 < n < |responses|;
      assert StartKeys(responses, LastEvaluateKey, i)
          == StartKeys(responses, LastEvaluateKey, i - 1) + [Token(resp.value, LastEvaluateKey)];
      startKeys := startKeys + [Token(resp.value, LastEvaluateKey)];
      resp := responses[i];
      i := i + 1;
      if resp.Err? {
        ScanEndsAt(responses, LastEvaluateKey, i - 1);
        return Err(resp.error), startKeys;
      }
      if resp.value.items.None? {
        ScanEndsAt(responses, LastEvaluateKey, i - 1);
        return Err(TypeError), startKeys;
      }
      assert ItemsOf(responses[i - 1]) == resp.value.items.value;
      assert Gathered(responses, i) == Gathered(responses, i - 1) + ItemsOf(responses[i - 1]);
      items := items + resp.value.items.value;
    }
    ScanEndsAt(responses, LastEvaluateKey, i - 1);
    assert ScanPages(responses, LastEvaluateKey) == Ok(items);
    r := Ok(SortBy(items, order));
  }

  /** A first response without "Items" and without a token gives an empty scan. */
  lemma FirstPageWithoutItemsIsEmpty()
    ensures ScanPages([Ok(ScanResponse(None, []))], LastEvaluateKey) == Ok([])
  {
    var responses := [Ok(ScanResponse(None, []))];
    assert !AsksAgain(responses, LastEvaluateKey, 0);
    assert LastPage(responses, LastEvaluateKey, 0) == 0;
    assert Gathered(responses, 1) == [];
  }

  /** A follow-up response without "Items" makes the scan fail (extending by None). */
  lemma FollowUpWithoutItemsFails(a: Item, token: Value)
    requires Truthy(token)
    ensures ScanPages([Ok(ScanResponse(Some([a]), [(LastEvaluateKey, token)])), Ok(ScanResponse(None, []))],
                      LastEvaluateKey) == Err(TypeError)
  {
    var responses := [Ok(ScanResponse(Some([a]), [(LastEvaluateKey, token)])), Ok(ScanResponse(None, []))];
    assert AsksAgain(responses, LastEvaluateKey, 0);
    assert !AsksAgain(responses, LastEvaluateKey, 1);
    assert LastPage(responses, LastEvaluateKey, 1) == 1;
    assert LastPage(responses, LastEvaluateKey, 0) == 1;
  }

  /**
   * The token the service reports under "LastEvaluatedKey" is not the one
   * the loop looks for, so the loop stops after the first page; read under
   * the service's spelling, the same responses give both pages.
   */
  lemma ServiceTokenIsNotFollowed(a: Item, b: Item, token: Value)
    requires Truthy(token)
    ensures var responses := [Ok(ScanResponse(Some([a]), [(LastEvaluatedKey, token)])),
                              Ok(ScanResponse(Some([b]), []))];
      && ScanPages(responses, LastEvaluateKey) == Ok([a])
      && ScanPages(responses, LastEvaluatedKey) == Ok([a, b])
  {
    var responses := [Ok(ScanResponse(Some([a]), [(LastEvaluatedKey, token)])),
                      Ok(ScanResponse(Some([b]), []))];
    assert Get(responses[0].value.fields, LastEvaluateKey) == None;
    assert !AsksAgain(responses, LastEvaluateKey, 0);
    assert LastPage(responses, LastEvaluateKey, 0) == 0;
    assert Gathered(responses, 1) == [a];
    assert AsksAgain(responses, LastEvaluatedKey, 0);
    assert !AsksAgain(responses, LastEvaluatedKey, 1);
    assert LastPage(responses, LastEvaluatedKey, 1) == 1;
    assert LastPage(responses, LastEvaluatedKey, 0) == 1;
    assert Gathered(responses, 2) == [a, b];
  }

  /**
   * `sorted(items)` as written: Python compares dicts with `<`, which
   * raises TypeError as soon as there are two items to compare.
   */
  function SortedAsWritten(items: seq<Item>): Result<seq<Item>, Error> {
    if |items| <= 1 then Ok(items) else Err(TypeError)
  }

  /** As written, a scan that gathers two items fails in the final sort. */
  lemma TwoItemScanRaisesAsWritten(a: Item, b: Item)
    ensures var gathered := ScanPages([Ok(ScanResponse(Some([a, b]), []))], LastEvaluateKey);
      gathered.Ok? && SortedAsWritten(gathered.value) == Err(TypeError)
  {
  }
}
