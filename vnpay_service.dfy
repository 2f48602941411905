/**
  * VnPayService: the outgoing payment URL for an order, and the reading of
  * the gateway's callback query into a payment result.
  */
module VnPayService {
  import opened Wrappers
  import opened Text
  import opened Numbers
  import opened Signing
  import opened UrlEncoding
  import opened ParamSet
  import opened VnPayLib

  /** The "VnPay:*" configuration values; a missing one reads as null. */
  datatype VnPayConfig = VnPayConfig(
    version: Option<string>,
    command: Option<string>,
    tmnCode: Option<string>,
    currCode: Option<string>,
    locale: Option<string>,
    callbackUrl: Option<string>,
    baseUrl: Option<string>,
    hashSecret: Option<string>)

  /**
    * VnPayRequestModel with its non-string fields already rendered: the order
    * Guid as text, `Amount * 100` as text and CreatedDate as "yyyyMMddHHmmss".
    */
  datatype VnPayRequestModel = VnPayRequestModel(
    orderId: string,
    fullName: string,
    description: string,
    scaledAmount: string,
    createdDate: string)

  /** VnPayResponseModel; a property left unset is null. */
  datatype VnPayResponseModel = VnPayResponseModel(
    success: bool,
    paymentMethod: Option<string>,
    orderDescription: Option<string>,
    orderId: Option<string>,
    transactionId: Option<string>,
    token: Option<string>,
    vnPayResponseCode: Option<string>)

  /** The result of a callback whose signature does not match: only Success = false. */
  const Failed := VnPayResponseModel(false, None, None, None, None, None, None)

  const OrderInfoPrefix := "Thanh toan don hang:"
  const VnpPrefix := "vnp_"
  const TxnRefKey := "vnp_TxnRef"
  const TransactionNoKey := "vnp_TransactionNo"
  const OrderInfoKey := "vnp_OrderInfo"
  const ResponseCodeKey := "vnp_ResponseCode"

  /** DateTime.MaxValue.Ticks: the largest value DateTime.Now.Ticks can take. */
  const MaxTicks := 3_155_378_975_999_999_999

  /** A parameter of the request, in the order CreatePaymentUrl adds it. */
  type Field = (string, Option<string>)

  /** The twelve keys CreatePaymentUrl adds, in order. */
  const RequestKeys: seq<string> := [
    "vnp_Version", "vnp_Command", "vnp_TmnCode", "vnp_Amount", "vnp_CreateDate", "vnp_CurrCode",
    "vnp_IpAddr", "vnp_Locale", "vnp_OrderInfo", "vnp_OrderType", "vnp_ReturnUrl", "vnp_TxnRef"]

  /** The twelve keys are distinct, so no add of CreatePaymentUrl can throw. */
  lemma RequestKeysDistinct()
    ensures forall i, j :: 0 <= i < j < |RequestKeys| ==> RequestKeys[i] != RequestKeys[j]
  {
  }

  /** Every request key is made of URL-safe characters, so it reaches the query string unencoded. */
  lemma RequestKeysUnencoded()
    ensures forall k :: k in RequestKeys ==> UrlEncode(k) == k
  {
    forall i | 0 <= i < |RequestKeys| ensures UrlEncode(RequestKeys[i]) == RequestKeys[i] {
      RequestKeySafe(i);
      UrlEncodeSafeIdentity(RequestKeys[i]);
    }
  }

  lemma RequestKeySafe(i: nat)
    requires i < |RequestKeys|
    ensures forall j :: 0 <= j < |RequestKeys[i]| ==> IsUrlSafeChar(RequestKeys[i][j])
  {
  }

  /** The values CreatePaymentUrl adds, in the order of RequestKeys: configuration values, the order and the ticks. */
  function RequestValues(config: VnPayConfig, model: VnPayRequestModel, ipAddress: string, ticks: nat): (v: seq<Option<string>>)
    requires ticks <= MaxTicks
    ensures |v| == |RequestKeys|
  {
    [config.version, config.command, config.tmnCode, Some(model.scaledAmount), Some(model.createdDate),
     config.currCode, Some(ipAddress), config.locale, Some(OrderInfoPrefix + model.orderId), Some("other"),
     config.callbackUrl, Some(FormatInt64(ticks))]
  }

  /** The parameters of CreatePaymentUrl, in order: each key with its value. */
  function RequestFields(config: VnPayConfig, model: VnPayRequestModel, ipAddress: string, ticks: nat): (f: seq<Field>)
    requires ticks <= MaxTicks
  {
    var v := RequestValues(config, model, ipAddress, ticks);
    seq(|RequestKeys|, i requires 0 <= i < |RequestKeys| => (RequestKeys[i], v[i]))
  }

  /** The map a sequence of adds with distinct keys leaves behind. */
  function PutAll(f: seq<Field>): (m: map<string, string>) {
    if f == [] then map[] else Put(PutAll(f[..|f| - 1]), f[|f| - 1].0, f[|f| - 1].1)
  }

  ghost predicate DistinctKeys(f: seq<Field>) {
    forall i, j :: 0 <= i < j < |f| ==> f[i].0 != f[j].0
  }

  /** A key is in the map exactly when some add carried it with a value that is neither null nor empty. */
  lemma {:induction false} PutAllKeys(f: seq<Field>, k: string)
    ensures k in PutAll(f) <==> exists i :: 0 <= i < |f| && f[i].0 == k && !IsNullOrEmpty(f[i].1)
  {
    if f != [] {
      var p := f[..|f| - 1];
      PutAllKeys(p, k);
      if k in PutAll(p) {
        var i :| 0 <= i < |p| && p[i].0 == k && !IsNullOrEmpty(p[i].1);
        assert f[i] == p[i];
      }
      if exists i :: 0 <= i < |f| && f[i].0 == k && !IsNullOrEmpty(f[i].1) {
        var i :| 0 <= i < |f| && f[i].0 == k && !IsNullOrEmpty(f[i].1);
        if i < |p| { assert p[i] == f[i]; }
      }
    }
  }

  /**
    * With distinct keys, the key of each add is in the map exactly when its
    * value was neither null nor empty, and then the map holds that value.
    */
  lemma {:induction false} PutAllAt(f: seq<Field>, i: nat)
    requires DistinctKeys(f) && i < |f|
    ensures f[i].0 in PutAll(f) <==> !IsNullOrEmpty(f[i].1)
    ensures !IsNullOrEmpty(f[i].1) ==> PutAll(f)[f[i].0] == f[i].1.value
  {
    var p := f[..|f| - 1];
    if i < |p| {
      assert p[i] == f[i];
      PutAllAt(p, i);
    } else {
      PutAllKeys(p, f[i].0);
    }
  }

  /** No add leaves an empty value. */
  lemma {:induction false} PutAllValues(f: seq<Field>)
    ensures forall k :: k in PutAll(f) ==> PutAll(f)[k] != ""
  {
    if f != [] {
      PutAllValues(f[..|f| - 1]);
    }
  }

  /** The j-th add of a sequence with distinct keys meets a key not yet present. */
  lemma NextKeyFresh(f: seq<Field>, j: nat, key: string, value: Option<string>)
    requires DistinctKeys(f) && j < |f| && f[j] == (key, value)
    ensures key !in PutAll(f[..j])
    ensures PutAll(f[..j + 1]) == Put(PutAll(f[..j]), key, value)
  {
    assert f[..j + 1][..j] == f[..j];
    PutAllKeys(f[..j], key);
  }

  /** The request parameters of CreatePaymentUrl, nulls and empty values dropped. */
  function PaymentParams(config: VnPayConfig, model: VnPayRequestModel, ipAddress: string, ticks: nat): (m: map<string, string>)
    requires ticks <= MaxTicks
  {
    PutAll(RequestFields(config, model, ipAddress, ticks))
  }

  lemma RequestFieldsDistinct(config: VnPayConfig, model: VnPayRequestModel, ipAddress: string, ticks: nat)
    requires ticks <= MaxTicks
    ensures DistinctKeys(RequestFields(config, model, ipAddress, ticks))
  {
    RequestKeysDistinct();
  }

  /**
    * The fixed part of the request: the order type, the order text, the
    * transaction reference that reads back as the tick count, only the
    * twelve keys (so neither signature field), and no empty value.
    */
  lemma PaymentParamsFacts(config: VnPayConfig, model: VnPayRequestModel, ipAddress: string, ticks: nat)
    requires ticks <= MaxTicks
    ensures var m := PaymentParams(config, model, ipAddress, ticks);
      && "vnp_OrderType" in m && m["vnp_OrderType"] == "other"
      && "vnp_OrderInfo" in m && m["vnp_OrderInfo"] == OrderInfoPrefix + model.orderId
      && TxnRefKey in m && ToInt64(m[TxnRefKey]) == Success(ticks)
      && (forall k :: k in m ==> k in RequestKeys && m[k] != "")
  {
    var f := RequestFields(config, model, ipAddress, ticks);
    RequestFieldsDistinct(config, model, ipAddress, ticks);
    FormatRoundTrip(ticks);
    PutAllAt(f, 9);
    PutAllAt(f, 8);
    PutAllAt(f, 11);
    PutAllValues(f);
    forall k | k in PutAll(f) ensures k in RequestKeys {
      PutAllKeys(f, k);
      var i :| 0 <= i < |f| && f[i].0 == k && !IsNullOrEmpty(f[i].1);
      assert f[i].0 == RequestKeys[i];
    }
  }

  /** The request holds `key` exactly when `value` is neither null nor empty, and then holds that value. */
  ghost predicate SentAs(m: map<string, string>, key: string, value: Option<string>) {
    (key in m <==> !IsNullOrEmpty(value)) && (key in m ==> m[key] == value.value)
  }

  /** Each configuration value is sent exactly when it is neither null nor empty, and is sent unchanged. */
  lemma NullConfigDropped(config: VnPayConfig, model: VnPayRequestModel, ipAddress: string, ticks: nat)
    requires ticks <= MaxTicks
    ensures var m := PaymentParams(config, model, ipAddress, ticks);
      && SentAs(m, "vnp_Version", config.version)
      && SentAs(m, "vnp_Command", config.command)
      && SentAs(m, "vnp_TmnCode", config.tmnCode)
      && SentAs(m, "vnp_CurrCode", config.currCode)
      && SentAs(m, "vnp_Locale", config.locale)
      && SentAs(m, "vnp_ReturnUrl", config.callbackUrl)
  {
    var f := RequestFields(config, model, ipAddress, ticks);
    RequestFieldsDistinct(config, model, ipAddress, ticks);
    PutAllAt(f, 0);
    PutAllAt(f, 1);
    PutAllAt(f, 2);
    PutAllAt(f, 5);
    PutAllAt(f, 7);
    PutAllAt(f, 10);
  }

  /**
    * The three values that do not come from the configuration: the scaled
    * amount, the creation date and the client address. Each is sent exactly
    * when it is not empty; in particular an empty address, which
    * Utils.GetIpAddress returns for a peer without an IPv4 address, leaves
    * vnp_IpAddr out of the signed request.
    */
  lemma RequestInputsSent(config: VnPayConfig, model: VnPayRequestModel, ipAddress: string, ticks: nat)
    requires ticks <= MaxTicks
    ensures var m := PaymentParams(config, model, ipAddress, ticks);
      && SentAs(m, "vnp_Amount", Some(model.scaledAmount))
      && SentAs(m, "vnp_CreateDate", Some(model.createdDate))
      && SentAs(m, "vnp_IpAddr", Some(ipAddress))
      && (ipAddress == "" ==> "vnp_IpAddr" !in m)
  {
    var f := RequestFields(config, model, ipAddress, ticks);
    RequestFieldsDistinct(config, model, ipAddress, ticks);
    PutAllAt(f, 3);
    PutAllAt(f, 4);
    PutAllAt(f, 6);
  }

  /**
    * CreatePaymentUrl: the request parameters, signed under the configured
    * secret, behind the configured base URL. DateTime.Now.Ticks is `ticks`
    * and Utils.GetIpAddress(context) is `ipAddress`; the twelve
    * AddRequestData calls are made in table order from RequestFields.
    */
  method CreatePaymentUrl(config: VnPayConfig, model: VnPayRequestModel, ipAddress: string, ticks: nat, mac: Mac)
    returns (r: Result<string, Error>)
    requires ticks <= MaxTicks
    ensures config.hashSecret.None? <==> r == Failure(NullArgument)
    ensures config.hashSecret.Some? ==>
      var signed := SignedString(PaymentParams(config, model, ipAddress, ticks));
      r == Success(config.baseUrl.GetOr("") + "?" + signed + "&" + SecureHashKey + "=" + HexOf(mac(config.hashSecret.value, signed)))
  {
    var fields := RequestFields(config, model, ipAddress, ticks);
    var vnpay := new VnPayLibrary();
    RequestFieldsDistinct(config, model, ipAddress, ticks);
    for j := 0 to |fields|
      invariant vnpay.Valid()
      invariant ToMap(vnpay.requestData) == PutAll(fields[..j])
    {
      NextKeyFresh(fields, j, fields[j].0, fields[j].1);
      var _ := vnpay.AddRequestData(fields[j].0, fields[j].1);
    }
    assert fields[..|fields|] == fields;
    PaymentParamsFacts(config, model, ipAddress, ticks);
    ToMapEmpty(vnpay.requestData);
    r := vnpay.CreateRequestUrl(config.baseUrl, config.hashSecret, mac);
  }

  /** A callback query: its keys with their values, in the order they arrive. */
  type Query = seq<(string, string)>

  /** The filter of PaymentExecute's loop: a non-empty key starting with "vnp_". */
  predicate IsVnpKey(key: string) {
    !IsNullOrEmpty(Some(key)) && StartsWith(key, VnpPrefix)
  }

  /** A parameter the loop adds: a vnp_ key with a non-empty value. */
  predicate Kept(x: (string, string)) {
    IsVnpKey(x.0) && x.1 != ""
  }

  /** No two parameters the loop adds share a key, so SortedList.Add never throws. */
  ghost predicate NoRepeatedKey(q: Query) {
    forall i, j :: 0 <= i < j < |q| && Kept(q[i]) && Kept(q[j]) ==> q[i].0 != q[j].0
  }

  /**
    * The response map PaymentExecute's loop builds: every vnp_ parameter with
    * a non-empty value, or the DuplicateKey error of SortedList.Add.
    * `CollectSucceeds` and `CollectContents` say exactly when it succeeds and
    * what it then holds.
    */
  function Collect(q: Query): (r: Result<map<string, string>, Error>)
    ensures r.Failure? ==> r.error == DuplicateKey
    ensures r.Success? ==> forall k :: k in r.value ==> IsVnpKey(k) && r.value[k] != ""
  {
    if q == [] then Success(map[])
    else
      var key, value := q[|q| - 1].0, q[|q| - 1].1;
      match Collect(q[..|q| - 1])
      case Failure(e) => Failure(e)
      case Success(m) =>
        if !Kept((key, value)) then Success(m)
        else if key in m then Failure(DuplicateKey)
        else Success(m[key := value])
  }

  /** `collections.FirstOrDefault(p => p.Key == key).Value`: null when no parameter has that key. */
  function FirstValue(q: Query, key: string): (r: Option<string>)
    ensures r.Some? <==> exists i :: 0 <= i < |q| && q[i].0 == key
    ensures r.Some? ==> exists i :: 0 <= i < |q| && q[i] == (key, r.value) && forall j :: 0 <= j < i ==> q[j].0 != key
  {
    if q == [] then None
    else if q[0].0 == key then Some(q[0].1)
    else
      var r := FirstValue(q[1..], key);
      assert forall i :: 0 < i < |q| ==> q[i] == q[1..][i - 1];
      r
  }

  /**
    * What PaymentExecute answers for a callback query: the add errors, then
    * the two numeric parses, then the null-secret error of the signature
    * check, then a failure-only or a fully populated result.
    */
  ghost function Execute(q: Query, hashSecret: Option<string>, mac: Mac): (r: Result<VnPayResponseModel, Error>)
    ensures r.Success? ==> hashSecret.Some? && Collect(q).Success?
    ensures r.Success? && !r.value.success ==> r.value == Failed
    ensures r.Success? && r.value.success ==>
      r.value.paymentMethod == Some("VnPay") && r.value.token == FirstValue(q, SecureHashKey) && r.value.token.Some?
  {
    match Collect(q)
    case Failure(e) => Failure(e)
    case Success(m) =>
      var orderId := ToInt64(GetOrEmpty(m, TxnRefKey));
      if orderId.Failure? then Failure(orderId.error)
      else
        var transactionId := ToInt64(GetOrEmpty(m, TransactionNoKey));
        if transactionId.Failure? then Failure(transactionId.error)
        else if hashSecret.None? then Failure(NullArgument)
        else
          var hash := FirstValue(q, SecureHashKey);
          var signed := SignedString(m - {SecureHashTypeKey, SecureHashKey});
          if !EqualsIgnoreCase(HexOf(mac(hashSecret.value, signed)), hash) then Success(Failed)
          else Success(VnPayResponseModel(
            true, Some("VnPay"), Some(GetOrEmpty(m, OrderInfoKey)),
            Some(FormatInt64(orderId.value)), Some(FormatInt64(transactionId.value)),
            hash, Some(GetOrEmpty(m, ResponseCodeKey))))
  }

  /** Once the loop has thrown, the rest of the query does not matter. */
  lemma {:induction false} CollectFailurePersists(q: Query, n: nat)
    requires n <= |q| && Collect(q[..n]).Failure?
    ensures Collect(q) == Collect(q[..n])
    decreases |q| - n
  {
    if n < |q| {
      assert q[..n + 1][..n] == q[..n];
      CollectFailurePersists(q, n + 1);
    } else {
      assert q[..n] == q;
    }
  }

  /**
    * PaymentExecute: fills a fresh VnPayLibrary from the query, reads the
    * ids, and checks the signature under `hashSecret` (the configured
    * VnPay:HashSecret).
    */
  method PaymentExecute(collections: Query, hashSecret: Option<string>, mac: Mac) returns (r: Result<VnPayResponseModel, Error>)
    ensures r == Execute(collections, hashSecret, mac)
  {
    var vnpay := new VnPayLibrary();
    for i := 0 to |collections|
      invariant vnpay.Valid()
      invariant Collect(collections[..i]) == Success(ToMap(vnpay.responseData))
    {
      assert collections[..i + 1][..i] == collections[..i];
      var (key, value) := collections[i];
      if IsVnpKey(key) {
        var added := vnpay.AddResponseData(key, Some(value));
        if added.Failure? {
          CollectFailurePersists(collections, i + 1);
          return Failure(added.error);
        }
      }
    }
    assert collections[..|collections|] == collections;
    ghost var m := ToMap(vnpay.responseData);

    var txnRef := vnpay.GetResponseData(TxnRefKey);
    var orderId := ToInt64(txnRef);
    if orderId.Failure? {
      return Failure(orderId.error);
    }
    var transactionNo := vnpay.GetResponseData(TransactionNoKey);
    var transactionId := ToInt64(transactionNo);
    if transactionId.Failure? {
      return Failure(transactionId.error);
    }
    var secureHash := FirstValue(collections, SecureHashKey);
    var responseCode := vnpay.GetResponseData(ResponseCodeKey);
    var orderInfo := vnpay.GetResponseData(OrderInfoKey);

    var checkSignature := vnpay.ValidateSignature(secureHash, hashSecret, mac);
    if checkSignature.Failure? {
      return Failure(checkSignature.error);
    }
    if !checkSignature.value {
      return Success(Failed);
    }
    r := Success(VnPayResponseModel(
      true, Some("VnPay"), Some(orderInfo),
      Some(FormatInt64(orderId.value)), Some(FormatInt64(transactionId.value)),
      secureHash, Some(responseCode)));
  }

  // ---- Properties of the callback reading ----

  /** Splitting the query: the last parameter decides the last step of the loop. */
  lemma CollectSnoc(q: Query, x: (string, string))
    ensures Collect(q + [x]) == match Collect(q)
      case Failure(e) => Failure(e)
      case Success(m) =>
        if !Kept(x) then Success(m)
        else if x.0 in m then Failure(DuplicateKey)
        else Success(m[x.0 := x.1])
  {
    assert (q + [x])[..|q|] == q;
  }

  /** On success the map holds every added parameter with its value, and nothing that did not arrive. */
  lemma {:induction false} CollectContents(q: Query)
    requires Collect(q).Success?
    ensures forall i :: 0 <= i < |q| && Kept(q[i]) ==> q[i].0 in Collect(q).value && Collect(q).value[q[i].0] == q[i].1
    ensures forall k :: k in Collect(q).value ==> exists i :: 0 <= i < |q| && q[i] == (k, Collect(q).value[k])
  {
    if q != [] {
      var p, x := q[..|q| - 1], q[|q| - 1];
      assert q == p + [x];
      CollectSnoc(p, x);
      CollectContents(p);
      var m, r := Collect(p).value, Collect(q).value;
      forall i | 0 <= i < |q| && Kept(q[i]) ensures q[i].0 in r && r[q[i].0] == q[i].1 {
        if i < |p| {
          assert q[i] == p[i];
        }
      }
      forall k | k in r ensures exists i :: 0 <= i < |q| && q[i] == (k, r[k]) {
        if k == x.0 && Kept(x) {
          assert q[|p|] == (k, r[k]);
        } else {
          var i :| 0 <= i < |p| && p[i] == (k, m[k]);
          assert q[i] == (k, r[k]);
        }
      }
    }
  }

  /** Reading the parameters succeeds exactly when no two added parameters share a key. */
  lemma {:induction false} CollectSucceeds(q: Query)
    ensures Collect(q).Success? <==> NoRepeatedKey(q)
  {
    if q != [] {
      var p, x := q[..|q| - 1], q[|q| - 1];
      assert q == p + [x];
      assert forall i :: 0 <= i < |p| ==> q[i] == p[i];
      CollectSnoc(p, x);
      CollectSucceeds(p);
      if Collect(p).Success? {
        var m := Collect(p).value;
        CollectContents(p);
        if Kept(x) && x.0 in m {
          var i :| 0 <= i < |p| && p[i] == (x.0, m[x.0]);
          assert Kept(q[i]) && q[i].0 == q[|p|].0;
        } else if Kept(x) {
          forall i | 0 <= i < |p| && Kept(q[i]) ensures q[i].0 != x.0 {
            assert q[i] == p[i];
          }
        }
      }
    }
  }

  /** A parameter at two positions is counted at least twice. */
  lemma TwiceCounted(q: Query, i: nat, j: nat)
    requires i < j < |q| && q[i] == q[j]
    ensures multiset(q)[q[i]] >= 2
  {
    assert q == q[..j] + [q[j]] + q[j + 1..];
    assert q[..j][i] == q[i];
  }

  /** A parameter counted at least twice stands at two positions. */
  lemma {:induction false} CountedTwice(q: Query, x: (string, string))
    requires multiset(q)[x] >= 2
    ensures exists i, j :: 0 <= i < j < |q| && q[i] == x && q[j] == x
  {
    var p, y := q[..|q| - 1], q[|q| - 1];
    assert q == p + [y];
    assert forall i :: 0 <= i < |p| ==> q[i] == p[i];
    if y == x {
      assert x in multiset(p);
      var i :| 0 <= i < |p| && p[i] == x;
      assert q[i] == x && q[|p|] == x;
    } else {
      CountedTwice(p, x);
      var i, j :| 0 <= i < j < |p| && p[i] == x && p[j] == x;
      assert q[i] == x && q[j] == x;
    }
  }

  /** Two positions of `q2` match two distinct positions of a rearrangement `q1`. */
  lemma MatchingPositions(q1: Query, q2: Query, i: nat, j: nat) returns (a: nat, b: nat)
    requires multiset(q1) == multiset(q2) && i < j < |q2|
    ensures a < |q1| && b < |q1| && a != b && q1[a] == q2[i] && q1[b] == q2[j]
  {
    if q2[i] == q2[j] {
      TwiceCounted(q2, i, j);
      CountedTwice(q1, q2[i]);
      a, b :| 0 <= a < b < |q1| && q1[a] == q2[i] && q1[b] == q2[i];
    } else {
      assert q2[i] in multiset(q1) && q2[j] in multiset(q1);
      a :| 0 <= a < |q1| && q1[a] == q2[i];
      b :| 0 <= b < |q1| && q1[b] == q2[j];
    }
  }

  /** Rearranging the query keeps its added keys distinct. */
  lemma NoRepeatedKeyRearranged(q1: Query, q2: Query)
    requires multiset(q1) == multiset(q2) && NoRepeatedKey(q1)
    ensures NoRepeatedKey(q2)
  {
    forall i, j | 0 <= i < j < |q2| && Kept(q2[i]) && Kept(q2[j]) ensures q2[i].0 != q2[j].0 {
      var a, b := MatchingPositions(q1, q2, i, j);
      if a < b {
        assert q1[a].0 != q1[b].0;
      } else {
        assert q1[b].0 != q1[a].0;
      }
    }
  }

  /**
    * The order in which the parameters arrive does not matter: SortedList
    * sorts them, so any rearrangement of a query reads back the same map, or
    * fails the same way.
    */
  lemma CollectRearranged(q1: Query, q2: Query)
    requires multiset(q1) == multiset(q2)
    ensures Collect(q1) == Collect(q2)
  {
    CollectSucceeds(q1);
    CollectSucceeds(q2);
    if NoRepeatedKey(q1) {
      NoRepeatedKeyRearranged(q1, q2);
      CollectContents(q1);
      CollectContents(q2);
      var m1, m2 := Collect(q1).value, Collect(q2).value;
      forall k | k in m1 ensures k in m2 && m2[k] == m1[k] {
        var i :| 0 <= i < |q1| && q1[i] == (k, m1[k]);
        assert q1[i] in multiset(q2);
        var j :| 0 <= j < |q2| && q2[j] == q1[i];
      }
      forall k | k in m2 ensures k in m1 {
        var j :| 0 <= j < |q2| && q2[j] == (k, m2[k]);
        assert q2[j] in multiset(q1);
        var i :| 0 <= i < |q1| && q1[i] == q2[j];
      }
      assert m1 == m2;
    } else if NoRepeatedKey(q2) {
      NoRepeatedKeyRearranged(q2, q1);
    }
  }

  /** FirstOrDefault finds the only value a key carries. */
  lemma FirstValueOnly(q: Query, key: string, v: string)
    requires (key, v) in q
    requires forall i :: 0 <= i < |q| && q[i].0 == key ==> q[i].1 == v
    ensures FirstValue(q, key) == Some(v)
  {
  }

  /** Execute reads the query only through the map and the first hash parameter. */
  lemma ExecuteReads(q1: Query, q2: Query, hashSecret: Option<string>, mac: Mac)
    requires Collect(q1) == Collect(q2) && FirstValue(q1, SecureHashKey) == FirstValue(q2, SecureHashKey)
    ensures Execute(q1, hashSecret, mac) == Execute(q2, hashSecret, mac)
  {
  }

  /** An error depends on the collected parameters only, never on the hash received. */
  lemma ExecuteErrorReadsCollect(q1: Query, q2: Query, hashSecret: Option<string>, mac: Mac)
    requires Collect(q1) == Collect(q2) && Execute(q1, hashSecret, mac).Failure?
    ensures Execute(q2, hashSecret, mac) == Execute(q1, hashSecret, mac)
  {
  }

  /** A parameter whose key does not start with "vnp_" is never added, wherever it stands. */
  lemma {:induction false} CollectSkipsForeign(q1: Query, x: (string, string), q2: Query)
    requires !IsVnpKey(x.0)
    ensures Collect(q1 + [x] + q2) == Collect(q1 + q2)
    decreases |q2|
  {
    if q2 == [] {
      assert q1 + [x] + q2 == q1 + [x];
      assert q1 + q2 == q1;
      CollectSnoc(q1, x);
    } else {
      var p, y := q2[..|q2| - 1], q2[|q2| - 1];
      assert q1 + [x] + q2 == (q1 + [x] + p) + [y];
      assert q1 + q2 == (q1 + p) + [y];
      CollectSkipsForeign(q1, x, p);
      CollectSnoc(q1 + [x] + p, y);
      CollectSnoc(q1 + p, y);
    }
  }

  /** FirstOrDefault skips a parameter with another key. */
  lemma {:induction false} FirstValueSkips(q1: Query, x: (string, string), q2: Query, key: string)
    requires x.0 != key
    ensures FirstValue(q1 + [x] + q2, key) == FirstValue(q1 + q2, key)
    decreases |q1|
  {
    if q1 == [] {
      assert q1 + [x] + q2 == [x] + q2;
      assert ([x] + q2)[1..] == q2;
      assert q1 + q2 == q2;
    } else {
      assert (q1 + [x] + q2)[1..] == q1[1..] + [x] + q2;
      assert (q1 + q2)[1..] == q1[1..] + q2;
      FirstValueSkips(q1[1..], x, q2, key);
    }
  }

  /**
    * Only vnp_ parameters count: inserting any other parameter anywhere in
    * the callback query does not change the outcome.
    */
  lemma ForeignParameterIgnored(q1: Query, x: (string, string), q2: Query, hashSecret: Option<string>, mac: Mac)
    requires !IsVnpKey(x.0)
    ensures Execute(q1 + [x] + q2, hashSecret, mac) == Execute(q1 + q2, hashSecret, mac)
  {
    CollectSkipsForeign(q1, x, q2);
    assert SecureHashKey[..|VnpPrefix|] == VnpPrefix;
    FirstValueSkips(q1, x, q2, SecureHashKey);
  }

  /**
    * The ids are parsed before the signature is checked: an unparsable
    * vnp_TxnRef is an error whatever the hash, the secret or the MAC.
    */
  lemma BadTxnRefFailsFirst(q: Query, hashSecret: Option<string>, mac: Mac)
    requires Collect(q).Success?
    requires ToInt64(GetOrEmpty(Collect(q).value, TxnRefKey)).Failure?
    ensures Execute(q, hashSecret, mac) == Failure(ToInt64(GetOrEmpty(Collect(q).value, TxnRefKey)).error)
  {
  }

  /**
    * The same for the second id: with vnp_TxnRef readable, an unparsable
    * vnp_TransactionNo is an error whatever the hash, the secret or the MAC.
    */
  lemma BadTransactionNoFailsSecond(q: Query, hashSecret: Option<string>, mac: Mac)
    requires Collect(q).Success?
    requires ToInt64(GetOrEmpty(Collect(q).value, TxnRefKey)).Success?
    requires ToInt64(GetOrEmpty(Collect(q).value, TransactionNoKey)).Failure?
    ensures Execute(q, hashSecret, mac) == Failure(ToInt64(GetOrEmpty(Collect(q).value, TransactionNoKey)).error)
  {
  }

  /**
    * A vnp_TxnRef holding a character that no number contains, such as a
    * letter, fails with a format error whatever the hash, the secret or the MAC.
    */
  lemma NonNumericTxnRefIsBadFormat(q: Query, hashSecret: Option<string>, mac: Mac, i: nat)
    requires Collect(q).Success? && TxnRefKey in Collect(q).value
    requires i < |Collect(q).value[TxnRefKey]| && NeverInNumber(Collect(q).value[TxnRefKey][i])
    ensures Execute(q, hashSecret, mac) == Failure(BadFormat)
  {
    NonNumericIsBadFormat(Collect(q).value[TxnRefKey], i);
  }

  /** The same for vnp_TransactionNo once vnp_TxnRef reads as a number. */
  lemma NonNumericTransactionNoIsBadFormat(q: Query, hashSecret: Option<string>, mac: Mac, i: nat)
    requires Collect(q).Success? && ToInt64(GetOrEmpty(Collect(q).value, TxnRefKey)).Success?
    requires TransactionNoKey in Collect(q).value
    requires i < |Collect(q).value[TransactionNoKey]| && NeverInNumber(Collect(q).value[TransactionNoKey][i])
    ensures Execute(q, hashSecret, mac) == Failure(BadFormat)
  {
    NonNumericIsBadFormat(Collect(q).value[TransactionNoKey], i);
  }

  /** A callback with a readable vnp_TxnRef but without vnp_TransactionNo fails with a format error. */
  lemma MissingTransactionNoIsBadFormat(q: Query, hashSecret: Option<string>, mac: Mac)
    requires Collect(q).Success? && ToInt64(GetOrEmpty(Collect(q).value, TxnRefKey)).Success?
    requires TransactionNoKey !in Collect(q).value
    ensures Execute(q, hashSecret, mac) == Failure(BadFormat)
  {
    EmptyIsBadFormat();
  }

  /** In particular a callback without vnp_TxnRef fails with a format error. */
  lemma MissingTxnRefIsBadFormat(q: Query, hashSecret: Option<string>, mac: Mac)
    requires Collect(q).Success? && TxnRefKey !in Collect(q).value
    ensures Execute(q, hashSecret, mac) == Failure(BadFormat)
  {
    EmptyIsBadFormat();
  }

  /**
    * A callback whose hash does not decode to the MAC of the rebuilt string
    * (or that carries no hash) yields the failure-only result.
    */
  lemma MismatchYieldsFailed(q: Query, secret: string, mac: Mac)
    requires Collect(q).Success?
    requires ToInt64(GetOrEmpty(Collect(q).value, TxnRefKey)).Success?
    requires ToInt64(GetOrEmpty(Collect(q).value, TransactionNoKey)).Success?
    requires var h := FirstValue(q, SecureHashKey);
      h.None? || ParseHex(h.value) != Some(mac(secret, SignedString(Collect(q).value - {SecureHashTypeKey, SecureHashKey})))
    ensures Execute(q, Some(secret), mac) == Success(Failed)
  {
    var h := FirstValue(q, SecureHashKey);
    if h.Some? {
      EqualsIgnoreCaseIffSameDigest(mac(secret, SignedString(Collect(q).value - {SecureHashTypeKey, SecureHashKey})), h.value);
    }
  }

  /**
    * Tampering is caught: a callback carrying the hash signed for the
    * parameters m, whose own parameters (less the two hash fields) are not
    * m, yields the failure-only result, provided the MAC under the secret
    * tells the two canonical strings apart. The canonical string loses
    * nothing, so the strings themselves always differ.
    */
  lemma TamperedCallbackRejected(q: Query, secret: string, mac: Mac, m: map<string, string>)
    requires Collect(q).Success?
    requires ToInt64(GetOrEmpty(Collect(q).value, TxnRefKey)).Success?
    requires ToInt64(GetOrEmpty(Collect(q).value, TransactionNoKey)).Success?
    requires FirstValue(q, SecureHashKey).Some?
    requires ParseHex(FirstValue(q, SecureHashKey).value) == Some(mac(secret, SignedString(m)))
    requires Collect(q).value - {SecureHashTypeKey, SecureHashKey} != m
    requires var received := SignedString(Collect(q).value - {SecureHashTypeKey, SecureHashKey});
      received != SignedString(m) ==> mac(secret, received) != mac(secret, SignedString(m))
    ensures Execute(q, Some(secret), mac) == Success(Failed)
  {
    SignedStringInjective(Collect(q).value - {SecureHashTypeKey, SecureHashKey}, m);
    MismatchYieldsFailed(q, secret, mac);
  }

  // ---- The round trip through the gateway ----

  /** The query string of an entry list, parameter by parameter in list order. */
  function AsQuery(e: seq<Entry>): (q: Query)
    ensures |q| == |e| && forall i :: 0 <= i < |e| ==> q[i] == (e[i].key, e[i].value)
  {
    seq(|e|, i requires 0 <= i < |e| => (e[i].key, e[i].value))
  }

  ghost predicate AllVnpKeys(e: seq<Entry>) {
    forall i :: 0 <= i < |e| ==> IsVnpKey(e[i].key)
  }

  /** Reading back the query of a sorted list of vnp_ parameters gives its map. */
  lemma {:induction false} CollectOfSorted(e: seq<Entry>)
    requires Sorted(e) && NoEmptyValues(e) && AllVnpKeys(e)
    ensures Collect(AsQuery(e)) == Success(ToMap(e))
  {
    if e != [] {
      var p, x := e[..|e| - 1], e[|e| - 1];
      SortedPrefix(e);
      LastNotInPrefix(e);
      assert NoEmptyValues(p) && AllVnpKeys(p) by {
        forall i | 0 <= i < |p| ensures p[i] == e[i] { }
      }
      CollectOfSorted(p);
      assert Kept((x.key, x.value));
      assert AsQuery(e) == AsQuery(p) + [(x.key, x.value)];
      CollectSnoc(AsQuery(p), (x.key, x.value));
    }
  }

  /** FirstOrDefault on a query whose only parameter with that key is the last one. */
  lemma {:induction false} FirstValueLast(q: Query, x: (string, string))
    requires forall i :: 0 <= i < |q| ==> q[i].0 != x.0
    ensures FirstValue(q + [x], x.0) == Some(x.1)
  {
    if q == [] {
    } else {
      assert (q + [x])[1..] == q[1..] + [x];
      FirstValueLast(q[1..], x);
    }
  }

  /**
    * A callback whose parameters read back without error, whose ids parse
    * and whose hash decodes (in either letter case) to the MAC of the
    * rebuilt string is accepted, with the hash as the token.
    */
  lemma MatchAccepted(q: Query, secret: string, mac: Mac)
    requires Collect(q).Success?
    requires ToInt64(GetOrEmpty(Collect(q).value, TxnRefKey)).Success?
    requires ToInt64(GetOrEmpty(Collect(q).value, TransactionNoKey)).Success?
    requires var h := FirstValue(q, SecureHashKey);
      h.Some? && ParseHex(h.value) == Some(mac(secret, SignedString(Collect(q).value - {SecureHashTypeKey, SecureHashKey})))
    ensures var m := Collect(q).value;
      Execute(q, Some(secret), mac) == Success(VnPayResponseModel(
        true, Some("VnPay"), Some(GetOrEmpty(m, OrderInfoKey)),
        Some(FormatInt64(ToInt64(GetOrEmpty(m, TxnRefKey)).value)),
        Some(FormatInt64(ToInt64(GetOrEmpty(m, TransactionNoKey)).value)),
        FirstValue(q, SecureHashKey), Some(GetOrEmpty(m, ResponseCodeKey))))
  {
    var h := FirstValue(q, SecureHashKey);
    EqualsIgnoreCaseIffSameDigest(mac(secret, SignedString(Collect(q).value - {SecureHashTypeKey, SecureHashKey})), h.value);
  }

  /** The query of a sorted list of vnp_ parameters followed by a hash parameter. */
  lemma EchoQuery(e: seq<Entry>, h: string)
    requires Sorted(e) && NoEmptyValues(e) && AllVnpKeys(e)
    requires SecureHashKey !in ToMap(e) && h != ""
    ensures Collect(AsQuery(e) + [(SecureHashKey, h)]) == Success(ToMap(e)[SecureHashKey := h])
    ensures FirstValue(AsQuery(e) + [(SecureHashKey, h)], SecureHashKey) == Some(h)
  {
    var q := AsQuery(e);
    CollectOfSorted(e);
    assert SecureHashKey[..|VnpPrefix|] == VnpPrefix;
    CollectSnoc(q, (SecureHashKey, h));
    ToMapKeys(e);
    forall i | 0 <= i < |q| ensures q[i].0 != SecureHashKey {
      assert e[i].key in ToMap(e);
    }
    FirstValueLast(q, (SecureHashKey, h));
  }

  /** Adding the hash parameter changes neither the signed string nor the fields read. */
  lemma HashFieldInvisible(m: map<string, string>, h: string)
    requires SecureHashKey !in m && SecureHashTypeKey !in m
    ensures m[SecureHashKey := h] - {SecureHashTypeKey, SecureHashKey} == m
    ensures GetOrEmpty(m[SecureHashKey := h], TxnRefKey) == GetOrEmpty(m, TxnRefKey)
    ensures GetOrEmpty(m[SecureHashKey := h], TransactionNoKey) == GetOrEmpty(m, TransactionNoKey)
    ensures GetOrEmpty(m[SecureHashKey := h], OrderInfoKey) == GetOrEmpty(m, OrderInfoKey)
    ensures GetOrEmpty(m[SecureHashKey := h], ResponseCodeKey) == GetOrEmpty(m, ResponseCodeKey)
  {
  }

  /** The callback of EchoValidates with its parameters in key order and the hash last. */
  lemma EchoValidatesSorted(e: seq<Entry>, h: string, secret: string, mac: Mac)
    requires Sorted(e) && NoEmptyValues(e) && AllVnpKeys(e)
    requires SecureHashKey !in ToMap(e) && SecureHashTypeKey !in ToMap(e)
    requires ParseHex(h) == Some(mac(secret, Join(e)))
    requires ToInt64(GetOrEmpty(ToMap(e), TxnRefKey)).Success?
    requires ToInt64(GetOrEmpty(ToMap(e), TransactionNoKey)).Success?
    ensures var m := ToMap(e);
      Execute(AsQuery(e) + [(SecureHashKey, h)], Some(secret), mac) == Success(VnPayResponseModel(
        true, Some("VnPay"), Some(GetOrEmpty(m, OrderInfoKey)),
        Some(FormatInt64(ToInt64(GetOrEmpty(m, TxnRefKey)).value)),
        Some(FormatInt64(ToInt64(GetOrEmpty(m, TransactionNoKey)).value)),
        Some(h), Some(GetOrEmpty(m, ResponseCodeKey))))
  {
    var m := ToMap(e);
    var q := AsQuery(e) + [(SecureHashKey, h)];
    assert |h| == 128;
    EchoQuery(e, h);
    HashFieldInvisible(m, h);
    CanonicalOfSorted(e);
    MatchAccepted(q, secret, mac);
  }

  /** The hash parameter is the only parameter of a rearranged echo with that key. */
  lemma EchoHashFound(q: Query, e: seq<Entry>, h: string)
    requires SecureHashKey !in ToMap(e)
    requires multiset(q) == multiset(AsQuery(e) + [(SecureHashKey, h)])
    ensures FirstValue(q, SecureHashKey) == Some(h)
  {
    var q0 := AsQuery(e) + [(SecureHashKey, h)];
    ToMapKeys(e);
    assert q0[|e|] == (SecureHashKey, h);
    assert (SecureHashKey, h) in multiset(q);
    forall i | 0 <= i < |q| && q[i].0 == SecureHashKey ensures q[i].1 == h {
      assert q[i] in multiset(q0);
      var j :| 0 <= j < |q0| && q0[j] == q[i];
    }
    FirstValueOnly(q, SecureHashKey, h);
  }

  /**
    * A callback that carries a sorted list of vnp_ parameters and a hash that
    * decodes (in either letter case) to the MAC of their canonical string, in
    * any order, is accepted, with the ids read back from its parameters and
    * the hash as the token.
    */
  lemma EchoValidates(q: Query, e: seq<Entry>, h: string, secret: string, mac: Mac)
    requires Sorted(e) && NoEmptyValues(e) && AllVnpKeys(e)
    requires SecureHashKey !in ToMap(e) && SecureHashTypeKey !in ToMap(e)
    requires ParseHex(h) == Some(mac(secret, Join(e)))
    requires ToInt64(GetOrEmpty(ToMap(e), TxnRefKey)).Success?
    requires ToInt64(GetOrEmpty(ToMap(e), TransactionNoKey)).Success?
    requires multiset(q) == multiset(AsQuery(e) + [(SecureHashKey, h)])
    ensures var m := ToMap(e);
      Execute(q, Some(secret), mac) == Success(VnPayResponseModel(
        true, Some("VnPay"), Some(GetOrEmpty(m, OrderInfoKey)),
        Some(FormatInt64(ToInt64(GetOrEmpty(m, TxnRefKey)).value)),
        Some(FormatInt64(ToInt64(GetOrEmpty(m, TransactionNoKey)).value)),
        Some(h), Some(GetOrEmpty(m, ResponseCodeKey))))
  {
    var q0 := AsQuery(e) + [(SecureHashKey, h)];
    EchoValidatesSorted(e, h, secret, mac);
    EchoQuery(e, h);
    EchoHashFound(q, e, h);
    CollectRearranged(q0, q);
    ExecuteReads(q, q0, Some(secret), mac);
  }

  /** None of the keys the gateway adds is one the request already sends; all are vnp_ keys. */
  lemma ResponseKeysFresh()
    ensures TransactionNoKey !in RequestKeys && ResponseCodeKey !in RequestKeys
    ensures SecureHashKey !in RequestKeys && SecureHashTypeKey !in RequestKeys
    ensures IsVnpKey(TransactionNoKey) && IsVnpKey(ResponseCodeKey)
    ensures forall k :: k in RequestKeys ==> IsVnpKey(k)
  {
    forall k | k in RequestKeys ensures IsVnpKey(k) {
      assert k[..|VnpPrefix|] == VnpPrefix;
    }
    assert TransactionNoKey[..|VnpPrefix|] == VnpPrefix;
    assert ResponseCodeKey[..|VnpPrefix|] == VnpPrefix;
  }

  /** The canonical list of a map of non-empty vnp_ parameters. */
  lemma CanonicalFacts(m: map<string, string>)
    requires forall k :: k in m ==> IsVnpKey(k) && m[k] != ""
    ensures NoEmptyValues(Canonical(m)) && AllVnpKeys(Canonical(m))
  {
    var e := Canonical(m);
    ToMapKeys(e);
    forall i | 0 <= i < |e| ensures e[i].value != "" && IsVnpKey(e[i].key) {
      ToMapAt(e, i);
    }
  }

  /** What the gateway sends back for a request: its parameters, the transaction number and the response code. */
  function CallbackParams(request: map<string, string>, transactionNo: nat, responseCode: string): (m: map<string, string>)
    requires transactionNo <= Int64Max
  {
    request[TransactionNoKey := FormatInt64(transactionNo)][ResponseCodeKey := responseCode]
  }

  lemma CallbackParamsFacts(config: VnPayConfig, model: VnPayRequestModel, ipAddress: string, ticks: nat,
                            transactionNo: nat, responseCode: string)
    requires ticks <= MaxTicks && transactionNo <= Int64Max && responseCode != ""
    ensures var m := CallbackParams(PaymentParams(config, model, ipAddress, ticks), transactionNo, responseCode);
      && (forall k :: k in m ==> IsVnpKey(k) && m[k] != "")
      && SecureHashKey !in m && SecureHashTypeKey !in m
      && ToInt64(GetOrEmpty(m, TxnRefKey)) == Success(ticks)
      && ToInt64(GetOrEmpty(m, TransactionNoKey)) == Success(transactionNo)
      && GetOrEmpty(m, OrderInfoKey) == OrderInfoPrefix + model.orderId
      && GetOrEmpty(m, ResponseCodeKey) == responseCode
  {
    PaymentParamsFacts(config, model, ipAddress, ticks);
    ResponseKeysFresh();
    FormatRoundTrip(transactionNo);
    EmptyIsBadFormat();
  }

  /**
    * The whole exchange: the gateway answers a payment URL with the
    * request's parameters plus a transaction number and a response code,
    * and a hash of them under the shared secret, in whatever order it
    * sends them. The callback is accepted and gives back the order's tick
    * count as its order id.
    */
  lemma PaymentRoundTrip(config: VnPayConfig, model: VnPayRequestModel, ipAddress: string, ticks: nat,
                         transactionNo: nat, responseCode: string, mac: Mac, q: Query)
    requires ticks <= MaxTicks && transactionNo <= Int64Max && responseCode != ""
    requires config.hashSecret.Some?
    requires var m := CallbackParams(PaymentParams(config, model, ipAddress, ticks), transactionNo, responseCode);
      var h := HexOf(mac(config.hashSecret.value, SignedString(m)));
      multiset(q) == multiset(AsQuery(Canonical(m)) + [(SecureHashKey, h)])
    ensures var m := CallbackParams(PaymentParams(config, model, ipAddress, ticks), transactionNo, responseCode);
      var h := HexOf(mac(config.hashSecret.value, SignedString(m)));
      Execute(q, config.hashSecret, mac) == Success(VnPayResponseModel(
        true, Some("VnPay"), Some(OrderInfoPrefix + model.orderId),
        Some(FormatInt64(ticks)), Some(FormatInt64(transactionNo)), Some(h), Some(responseCode)))
  {
    var m := CallbackParams(PaymentParams(config, model, ipAddress, ticks), transactionNo, responseCode);
    var secret := config.hashSecret.value;
    var e := Canonical(m);
    CallbackParamsFacts(config, model, ipAddress, ticks, transactionNo, responseCode);
    CanonicalFacts(m);
    HexRoundTrip(mac(secret, Join(e)));
    EchoValidates(q, e, HexOf(mac(secret, Join(e))), secret, mac);
  }

  /**
    * A callback that only echoes the request's own parameters and their hash,
    * in any order, is not accepted: it has no vnp_TransactionNo, and the ""
    * read for it does not parse, so the call fails before the signature is
    * looked at.
    */
  lemma PlainEchoRejected(config: VnPayConfig, model: VnPayRequestModel, ipAddress: string, ticks: nat, mac: Mac, q: Query)
    requires ticks <= MaxTicks && config.hashSecret.Some?
    requires var m := PaymentParams(config, model, ipAddress, ticks);
      var h := HexOf(mac(config.hashSecret.value, SignedString(m)));
      multiset(q) == multiset(AsQuery(Canonical(m)) + [(SecureHashKey, h)])
    ensures Execute(q, config.hashSecret, mac) == Failure(BadFormat)
  {
    var m := PaymentParams(config, model, ipAddress, ticks);
    var h := HexOf(mac(config.hashSecret.value, SignedString(m)));
    var q0 := AsQuery(Canonical(m)) + [(SecureHashKey, h)];
    PlainEchoSorted(config, model, ipAddress, ticks, mac);
    CollectRearranged(q0, q);
    ExecuteErrorReadsCollect(q0, q, config.hashSecret, mac);
  }

  /** The same, for the parameters echoed in their canonical order. */
  lemma PlainEchoSorted(config: VnPayConfig, model: VnPayRequestModel, ipAddress: string, ticks: nat, mac: Mac)
    requires ticks <= MaxTicks && config.hashSecret.Some?
    ensures var m := PaymentParams(config, model, ipAddress, ticks);
      var h := HexOf(mac(config.hashSecret.value, SignedString(m)));
      Execute(AsQuery(Canonical(m)) + [(SecureHashKey, h)], config.hashSecret, mac) == Failure(BadFormat)
  {
    var m := PaymentParams(config, model, ipAddress, ticks);
    var h := HexOf(mac(config.hashSecret.value, SignedString(m)));
    PaymentParamsFacts(config, model, ipAddress, ticks);
    ResponseKeysFresh();
    CanonicalFacts(m);
    EchoQuery(Canonical(m), h);
    EmptyIsBadFormat();
  }

}
