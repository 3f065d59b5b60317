# boto3-apis thin wrappers, modelled in Dafny

This project models the two parts of the repository that hold logic of their own:

- the **table accessor** (`dynamodb.py`): a paginated scan that gathers and sorts items;
  `add_item`, which strips empty attributes and merges them over the primary key;
  `update_item`, which builds a `SET` expression with its alias and placeholder maps;
  and `get_item`, which turns lookup errors into an empty result;
- the **session provider** (`aws_utils.py`): a session built lazily and cached, the
  role-assumption call, `parse_creds`, and the region-name projection of `get_all_regions`.

Every call into the cloud SDK is a parameter of the model. `put`, `update`, `get`, `sts` and
`describeRegions` are total functions from the request the wrapper builds to the service's
answer, an `Ok` response or an `Err` exception. The scan's service is the finite sequence of
its responses. Python dicts are ordered lists of entries (`Dicts.Dict`), because a dict's
insertion order decides the order of the clauses in the update expression. Python exceptions
are the `Errors.Error` kinds.

Modules: `Wrappers` (Option, Result), `Errors`, `Dicts` (values, dict lookup, assignment and
`{**a, **b}`), `Strings` (join and split), `Sorting` (sorting by a given order), `DynamoDB`,
`AwsUtils`.

The scan loop reads its continuation token from the field spelled `"LastEvaluateKey"`
(dynamodb.py:37-38), and the model keeps that spelling. The table service reports the token
under `"LastEvaluatedKey"`. Read as written, a real paginated scan therefore stops after its
first page. `DynamoDB.ServiceTokenIsNotFollowed` shows this on two pages: the loop as written
returns only the first page's items, while the service's spelling would return both pages.

## Model

| member | source | states |
|---|---|---|
| `Dicts.Get` | dynamodb.py:36-37 | `d.get(k)`: the value of the first entry under k, or None (definition; the next three lemmas relate it to the entries) |
| `Dicts.GetMissing` | dynamodb.py:36-37 | `d.get(k)` is None exactly when k is not among the keys |
| `Dicts.GetFound` | dynamodb.py:36-37 | a value `d.get(k)` finds is that of an entry under k |
| `Dicts.GetAt` | dynamodb.py:36-37 | in a dict with distinct keys, `d.get(k)` gives the value of the only entry under k |
| `Dicts.Subscript` | aws_utils.py:51-53 | `d[k]` succeeds exactly when k is among the keys and raises KeyError(k) otherwise; its value is that of an entry under k, the only one when keys are distinct |
| `Dicts.Assign` | dynamodb.py:76 | `d[k] = v`, the step `{**p_key, **data}` takes per entry of data (definition; `Dicts.AssignGet`, `Dicts.AssignKeys` and `Dicts.AssignUnique` state it) |
| `Dicts.AssignGet` | dynamodb.py:76 | after `d[k] = v`, k holds v and every other key holds what it held before |
| `Dicts.AssignKeys` | dynamodb.py:76 | an existing key keeps its place after assignment; a new key goes last |
| `Dicts.AssignUnique` | dynamodb.py:76 | assignment keeps a dict's keys distinct |
| `Dicts.Merge` | dynamodb.py:76 | `{**a, **b}`: a's entries, then each entry of b assigned in turn (definition; its properties are the three lemmas below) |
| `Dicts.MergeGet` | dynamodb.py:76 | `{**a, **b}` holds b's value on every key of b, and a's value (or nothing) on every other key |
| `Dicts.MergeUnique` | dynamodb.py:76 | the merge has distinct keys |
| `Dicts.MergeKeepsOrder` | dynamodb.py:76 | a's keys stay first in the merge, in their order |
| `Strings.Join` | dynamodb.py:97 | `sep.join(parts)`: the parts with sep between neighbours, "" for no parts (definition; `Strings.SplitJoin` inverts it) |
| `Strings.SplitJoin` | dynamodb.py:97 | splitting `", ".join(parts)` at commas gives back exactly one piece per part, in order, when no part contains a comma |
| `Sorting.SortBy` | dynamodb.py:44 | the sorted list is non-decreasing under the order and is a permutation of the input |
| `DynamoDB.RemoveNoneAttrs` | dynamodb.py:73-74 | the null-stripping filter keeps only entries of data whose value is neither None nor empty |
| `DynamoDB.RemoveNoneAttrsKeepsOrder` | dynamodb.py:73-74 | every populated entry of data survives, and the survivors are a subsequence of data, in data's order |
| `DynamoDB.RemoveNoneAttrsGet` | dynamodb.py:94-95 | an attribute survives stripping exactly when it is present with a populated value, and it keeps that value |
| `DynamoDB.RemoveNoneAttrsUnique` | dynamodb.py:74 | stripping keeps the keys distinct |
| `DynamoDB.PutItemRequest` | dynamodb.py:73-76 | the written Item has distinct keys and starts with the key's attributes in their order |
| `DynamoDB.PutItemRequestGet` | dynamodb.py:76 | the Item's names are the key's names plus the populated data names; a populated data value wins; elsewhere the key's value stays, even when data holds an empty value under that name |
| `DynamoDB.AddItem` | dynamodb.py:72-82 | add_item returns the put's response, and re-raises the put's error of any kind unchanged |
| `DynamoDB.AddItemDropsNullAttribute` | dynamodb.py:73-76 | key `{"id": "1"}` with data `{"name": "x", "tag": None}` writes `{"id": "1", "name": "x"}` |
| `DynamoDB.UpdateItemRequest` | dynamodb.py:94-106 | the key is passed unfiltered; the two maps have one entry per surviving attribute; no value sent is None or empty |
| `DynamoDB.Clause` | dynamodb.py:97 | the clause `"#k = :k"` for attribute k (definition; `DynamoDB.UpdateItemRequestAliases` states it sets alias "#k" to placeholder ":k") |
| `DynamoDB.Clauses` | dynamodb.py:97 | one clause per attribute, in data's order (definition; `DynamoDB.UpdateItemRequestAliases` and `DynamoDB.UpdateExpressionClauses` state it) |
| `DynamoDB.UpdateExpression` | dynamodb.py:97-103 | `"SET "` followed by the clauses `"#k = :k"` joined with ", " (definition; `DynamoDB.UpdateExpressionClauses` states its shape) |
| `DynamoDB.AttributeNames` | dynamodb.py:98 | one entry `("#k", k)` per attribute, in order (definition; `DynamoDB.AttributeNamesGet` states its lookups) |
| `DynamoDB.AttributeValues` | dynamodb.py:99 | one entry `(":k", v)` per attribute, in order (definition; `DynamoDB.AttributeValuesGet` states its lookups) |
| `DynamoDB.AliasesUnique` | dynamodb.py:98-99 | distinct attribute names give distinct aliases and distinct placeholders |
| `DynamoDB.AttributeNamesGet` | dynamodb.py:98 | `"#k"` is an alias exactly when k is an attribute, and it stands for k |
| `DynamoDB.AttributeValuesGet` | dynamodb.py:99 | `":k"` is a placeholder exactly when k is an attribute, and it holds k's value |
| `DynamoDB.UpdateItemRequestAliases` | dynamodb.py:97-99 | for the stripped data: `"#k"` maps to k and `":k"` to data[k] exactly for populated k; the maps have no collisions; the i-th clause sets the i-th alias to the i-th placeholder |
| `DynamoDB.UpdateExpressionClauses` | dynamodb.py:97-103 | the expression is `"SET "` then exactly one `"#k = :k"` clause per surviving attribute, comma-separated and in data's order; with nothing left it is `"SET "` alone |
| `DynamoDB.UpdateItem` | dynamodb.py:93-115 | update_item returns the update's response, and re-raises not-found, client and validation errors unchanged |
| `DynamoDB.Swallowed` | dynamodb.py:57-60 | the errors get_item's two except clauses catch: not-found, client and validation errors (definition; `DynamoDB.GetItem` states what becomes of them) |
| `DynamoDB.GetItem` | dynamodb.py:54-61 | get_item returns the response. Not-found, client and validation errors become an empty mapping. Only other errors propagate, unchanged |
| `DynamoDB.Token` | dynamodb.py:37-38 | the loop test `resp.get("LastEvaluateKey")`: the value under the token name when it is truthy (definition; `DynamoDB.TokenInEntries` states it) |
| `DynamoDB.TokenInEntries` | dynamodb.py:37-38 | a token is the truthy value of an entry under the token's name; without such an entry there is none; with distinct field names the loop goes on exactly when that entry's value is truthy |
| `DynamoDB.ItemsOf` | dynamodb.py:36-39 | a page's items, defaulting to none when "Items" is absent, as `resp.get("Items", [])` does (definition) |
| `DynamoDB.AsksAgain` | dynamodb.py:37-39 | the loop goes round once more after a response: it arrived, it is the first or has Items (else `extend(None)` raised), and it carries a token (definition; `DynamoDB.LastPage` and `DynamoDB.ScanCountsVisitedItems` state it) |
| `DynamoDB.Gathered` | dynamodb.py:36-39 | the `items` list after the first n pages, grown by `extend` page after page (definition; `DynamoDB.GatheredLength` states it) |
| `DynamoDB.StartKeys` | dynamodb.py:35-38 | the ExclusiveStartKey of each request: none for the first, then each response's token (definition; `DynamoDB.StartKeysFollowTokens` states it, and `DynamoDB.ScanTable` returns exactly this trace) |
| `DynamoDB.LastPage` | dynamodb.py:37-39 | every response before the last one visited asks for another page; the last one visited does not |
| `DynamoDB.GatheredLength` | dynamodb.py:36-39 | the gathered list is as long as the visited pages' item counts together |
| `DynamoDB.ScanPages` | dynamodb.py:29-39 | what the loop gathers before sorting: the error of the response that ended it, TypeError for a follow-up without Items, or the items of every visited page in order (definition; the lemmas around it state its properties) |
| `DynamoDB.ScanCountsVisitedItems` | dynamodb.py:29-39 | a successful scan holds as many items as the visited pages. Every visited page but the last carries a token, and the last carries none |
| `DynamoDB.StartKeysFollowTokens` | dynamodb.py:35-38 | the first request carries no ExclusiveStartKey; each follow-up passes the previous response's truthy token unchanged |
| `DynamoDB.ScanTable` | dynamodb.py:21-44 | the scan sends exactly those requests. It returns the visited pages' items sorted and permuted, or the error that ended it (a failed call, or a follow-up without Items) |
| `DynamoDB.FirstPageWithoutItemsIsEmpty` | dynamodb.py:35-36 | a first response without Items and without a token gives an empty scan |
| `DynamoDB.FollowUpWithoutItemsFails` | dynamodb.py:38-39 | a follow-up response without Items makes the scan raise TypeError |
| `DynamoDB.ServiceTokenIsNotFollowed` | dynamodb.py:37-38 | a token the service reports as "LastEvaluatedKey" is not followed, so only the first page's items come back; the service's spelling would give both pages |
| `DynamoDB.SortedAsWritten` | dynamodb.py:44 | `sorted` as written: a list of at most one item comes back unchanged, and two or more dicts raise TypeError (definition) |
| `DynamoDB.TwoItemScanRaisesAsWritten` | dynamodb.py:44 | as written, sorting two gathered items (dicts) raises TypeError |
| `AwsUtils.BotoSession.constructor` | aws_utils.py:28-32 | the SDK session holds exactly the three credentials it is built from |
| `AwsUtils.AWSBaseSession.constructor` | aws_utils.py:13-22 | stores the three credentials as given, with no session cached |
| `AwsUtils.AWSBaseSession.Session` | aws_utils.py:24-32 | builds a session from exactly the stored credentials only when none is cached; otherwise returns the cached one unchanged, without building again; may change nothing but the cache |
| `AwsUtils.RepeatedAccessSharesSession` | aws_utils.py:24-32 | two uses of the property return the same session, which is the cached one and the one cached before if there was one; exactly one session has been built; only the cache changes |
| `AwsUtils.AWSBaseSession.GetAllRegions` | aws_utils.py:83-93 | asks the default region through the cached session (built if needed) and returns the projection of that response |
| `AwsUtils.RegionName` | aws_utils.py:88 | a region that is not a dict raises TypeError; a dict without "RegionName" raises KeyError("RegionName"); otherwise the name is the value of its "RegionName" entry |
| `AwsUtils.RegionNames` | aws_utils.py:88 | succeeds exactly when every region has a name, and then returns every name, same length, same order. Otherwise it returns the failure of the first region that has none |
| `AwsUtils.AllRegions` | aws_utils.py:84-93 | a failed call or a missing "Regions" propagates as an error, never as a partial or empty list; on success the names of all listed regions in order |
| `AwsUtils.AssumeRole` | aws_utils.py:34-46 | the call always asks for the given role and session name for 3600 seconds. It returns the response's Credentials unchanged, and a client error propagates unchanged |
| `AwsUtils.ParseCreds` | aws_utils.py:48-54 | exactly three entries, with `aws_access_key_id` = AccessKeyId, `aws_secret_access_key` = SecretAccessKey and `aws_session_token` = SessionToken. It fails with a KeyError naming the first absent key in that order |
| `AwsUtils.AssumedCredentialsParse` | aws_utils.py:46-54 | credentials returned by role assumption are the response's own Credentials, and parse_creds carries all three fields over unchanged under the session's names |

## Findings

| source | as written | input that shows it | evidently intended | confidence | as-written member | corrected member |
|---|---|---|---|---|---|---|
| dynamodb.py:44 | `sorted(items)` compares item dicts with `<`, which Python 3 does not define for dicts | a scan whose pages hold two items | a sorted list of the scanned items (the docstring promises "Sorted array of items") | not executed | `DynamoDB.TwoItemScanRaisesAsWritten` | `DynamoDB.ScanTable` (sorts by an explicit total order `order`, proved sorted and a permutation) |
| dynamodb.py:37-38 | the loop reads its token from `"LastEvaluateKey"`, a name the table service never sends (it reports `"LastEvaluatedKey"`) | two pages, the first reporting `"LastEvaluatedKey"` | each page after a page with a continuation token is fetched | not executed | `DynamoDB.ServiceTokenIsNotFollowed` (with `LastEvaluateKey` only the first page's items come back) | `DynamoDB.ScanPages` with `LastEvaluatedKey`: the same lemma shows it returns both pages, and `DynamoDB.ScanCountsVisitedItems` and `DynamoDB.StartKeysFollowTokens` hold for any token name |

## Left out

- s3.py is not part of this model: each of its methods forwards a single SDK call.
- The per-service factories (aws_utils.py:56-81) are left out, because they only construct SDK objects. So are the DynamoDB constructor (dynamodb.py:15-19) and the STS client built from `aws_secrets`. `GetAllRegions` keeps only the default region "us-east-1" that it passes on.
- The server-side filter on `target_identifier` and the projection (dynamodb.py:31-34) are evaluated by the service. The model takes the responses as given.
- Logging is left out everywhere, since it is output only.
- Thread safety of the cached session is left out: the code has no concurrency.
- ScanTable: the sort order is an abstract total preorder parameter, because Python defines none on dicts (see Findings).
- ScanTable: requires that the service eventually sends a response that ends the loop (`Stops`). An endless chain of tokens, which would make the Python loop run forever, is outside the model.
- ScanResponse: an "Items" field that is present but not a list is not modelled. The service always sends a list.
- RemoveNoneAttrs: dynamodb.py:74 and :95 call `self.remove_none_attrs`, but the `DynamoDB` class (dynamodb.py:14) has no base class and defines no such method, so its rule is assumed. As written, a plain `DynamoDB` object would raise AttributeError at dynamodb.py:74 and :95, before the `try` and without logging; the model instead applies the assumed filter. The comments at dynamodb.py:73 and :94 say only that None or empty values are not added; dropping None, empty strings and empty lists and maps while keeping 0 and False is this model's own reading (a plain `if v` filter would drop 0 and False too).
- UpdateExpressionClauses: the split-back property is stated only for attribute names without commas, because a comma inside a name makes the comma-separated text ambiguous. The alias and placeholder maps (`UpdateItemRequestAliases`) are stated for all names.
- AllRegions: a "Regions" value that is not a list is reported as TypeError, even where Python would iterate a string or a dict. The service always sends a list.
- Values (`Dicts.Value`): numbers are whole numbers. Decimals, binary values and sets of the table service are not distinguished.
- AWSBaseSession.Session: building the SDK session cannot fail in the model (`BotoSession` has a total constructor), so a construction failure that the `session` property would pass on is not modelled.
- AWSBaseSession.Session: the Python test `not self._session` is modelled as "no session cached yet", because a Session object is always truthy.
