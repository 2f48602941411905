/**
  * VnPayLibrary: the two SortedList<string, string> parameter maps of one
  * payment exchange, the signed request URL built from the first and the
  * signature check run over the second.
  */
module VnPayLib {
  import opened Wrappers
  import opened Text
  import opened UrlEncoding
  import opened Signing
  import opened ParamSet

  const SecureHashKey := "vnp_SecureHash"
  const SecureHashTypeKey := "vnp_SecureHashType"

  /** The map-level effect of an Add whose key is not yet present. */
  function Put(m: map<string, string>, key: string, value: Option<string>): (m': map<string, string>) {
    if IsNullOrEmpty(value) then m else m[key := value.value]
  }

  /**
    * The StringBuilder loop of CreateRequestUrl and of the private
    * GetResponseData: "encode(key)=encode(value)&" for every entry with a
    * non-empty value, in list order. With no empty value stored, that is the
    * joined list plus one trailing '&'.
    */
  method AppendPairs(entries: seq<Entry>) returns (data: string)
    ensures data == QueryString(entries)
    ensures NoEmptyValues(entries) && entries == [] ==> data == ""
    ensures NoEmptyValues(entries) && entries != [] ==> data == Join(entries) + "&"
  {
    data := "";
    for i := 0 to |entries|
      invariant data == QueryString(entries[..i])
    {
      QueryStringStep(entries, i);
      var x := entries[i];
      if x.value != "" {
        data := data + (UrlEncode(x.key) + "=" + UrlEncode(x.value) + "&");
      }
    }
    assert entries[..|entries|] == entries;
    if NoEmptyValues(entries) {
      QueryStringIsJoin(entries);
    }
  }

  class VnPayLibrary {
    /** _requestData, as its entries in key order. */
    var requestData: seq<Entry>
    /** _responseData, as its entries in key order. */
    var responseData: seq<Entry>

    /** Both lists are in VnPayCompare order and hold no empty value. */
    ghost predicate Valid()
      reads this
    {
      Sorted(requestData) && NoEmptyValues(requestData) &&
      Sorted(responseData) && NoEmptyValues(responseData)
    }

    constructor()
      ensures Valid()
      ensures requestData == [] && responseData == []
    {
      requestData := [];
      responseData := [];
    }

    /**
      * A null or empty value is skipped; otherwise SortedList.Add inserts the
      * entry at its place, or throws when the key is already present.
      */
    method AddRequestData(key: string, value: Option<string>) returns (r: Result<(), Error>)
      requires Valid()
      modifies this`requestData
      ensures Valid()
      ensures r.Failure? <==> !IsNullOrEmpty(value) && key in old(ToMap(requestData))
      ensures r.Failure? ==> r.error == DuplicateKey
      ensures r.Failure? || IsNullOrEmpty(value) ==> requestData == old(requestData)
      ensures r.Success? ==> ToMap(requestData) == Put(old(ToMap(requestData)), key, value)
    {
      if IsNullOrEmpty(value) {
        return Success(());
      }
      if key in ToMap(requestData) {
        return Failure(DuplicateKey);
      }
      InsertSortedCorrect(requestData, key, value.value);
      InsertSortedValues(requestData, key, value.value);
      requestData := InsertSorted(requestData, key, value.value);
      return Success(());
    }

    /** The same rule as AddRequestData, on the response side. */
    method AddResponseData(key: string, value: Option<string>) returns (r: Result<(), Error>)
      requires Valid()
      modifies this`responseData
      ensures Valid()
      ensures r.Failure? <==> !IsNullOrEmpty(value) && key in old(ToMap(responseData))
      ensures r.Failure? ==> r.error == DuplicateKey
      ensures r.Failure? || IsNullOrEmpty(value) ==> responseData == old(responseData)
      ensures r.Success? ==> ToMap(responseData) == Put(old(ToMap(responseData)), key, value)
    {
      if IsNullOrEmpty(value) {
        return Success(());
      }
      if key in ToMap(responseData) {
        return Failure(DuplicateKey);
      }
      InsertSortedCorrect(responseData, key, value.value);
      InsertSortedValues(responseData, key, value.value);
      responseData := InsertSorted(responseData, key, value.value);
      return Success(());
    }

    /** TryGetValue on the response map, with "" for a missing key. */
    method GetResponseData(key: string) returns (r: string)
      requires Valid()
      ensures r == GetOrEmpty(ToMap(responseData), key)
      ensures forall i :: 0 <= i < |responseData| && responseData[i].key == key ==> r == responseData[i].value
      ensures r == "" <==> key !in ToMap(responseData)
    {
      ToMapKeys(responseData);
      forall i | 0 <= i < |responseData| && responseData[i].key == key
        ensures GetOrEmpty(ToMap(responseData), key) == responseData[i].value
      {
        ToMapAt(responseData, i);
      }
      if key in ToMap(responseData) {
        var i :| 0 <= i < |responseData| && responseData[i].key == key;
        ToMapAt(responseData, i);
      }
      r := GetOrEmpty(ToMap(responseData), key);
    }

    /**
      * The query string of the request map, its signature under the secret,
      * and the redirect URL that carries both. The signed string is the
      * canonical one of the map: it does not depend on the order of the adds.
      */
    method CreateRequestUrl(baseUrl: Option<string>, hashSecret: Option<string>, mac: Mac) returns (r: Result<string, Error>)
      requires Valid()
      ensures hashSecret.None? <==> r == Failure(NullArgument)
      ensures hashSecret.Some? && requestData != [] ==>
        r == Success(baseUrl.GetOr("") + "?" + SignedString(ToMap(requestData)) + "&" + SecureHashKey + "=" +
                     HexOf(mac(hashSecret.value, SignedString(ToMap(requestData)))))
      ensures hashSecret.Some? && requestData == [] ==>
        r == Success(baseUrl.GetOr("") + "?" + SecureHashKey + "=" + HexOf(mac(hashSecret.value, "")))
    {
      var data := AppendPairs(requestData);
      CanonicalOfSorted(requestData);
      var url := baseUrl.GetOr("") + "?" + data;
      var signData := data;
      if |signData| > 0 {
        signData := signData[..|signData| - 1];
      }
      assert signData == Join(requestData);
      var hash := HmacSha512(hashSecret, signData, mac);
      if hash.Failure? {
        return Failure(hash.error);
      }
      if requestData == [] {
        assert url == baseUrl.GetOr("") + "?";
      } else {
        assert url == baseUrl.GetOr("") + "?" + signData + "&";
      }
      r := Success(url + SecureHashKey + "=" + hash.value);
    }

    /** ContainsKey, then SortedList.Remove: the key is gone and nothing else changes. */
    method RemoveResponseKey(key: string)
      requires Valid()
      modifies this`responseData
      ensures Valid()
      ensures ToMap(responseData) == old(ToMap(responseData)) - {key}
    {
      if key in ToMap(responseData) {
        RemoveKeyMap(responseData, key);
        RemoveKeySorted(responseData, key);
        RemoveKeyValues(responseData, key);
        responseData := RemoveKey(responseData, key);
      }
    }

    /**
      * The private GetResponseData: drops the two signature fields from the
      * response map for good and rebuilds the canonical string of what is left.
      */
    method GetResponseRaw() returns (raw: string)
      requires Valid()
      modifies this`responseData
      ensures Valid()
      ensures ToMap(responseData) == old(ToMap(responseData)) - {SecureHashTypeKey, SecureHashKey}
      ensures raw == SignedString(ToMap(responseData))
    {
      ghost var m := ToMap(responseData);
      RemoveResponseKey(SecureHashTypeKey);
      RemoveResponseKey(SecureHashKey);
      assert m - {SecureHashTypeKey} - {SecureHashKey} == m - {SecureHashTypeKey, SecureHashKey};
      var data := AppendPairs(responseData);
      CanonicalOfSorted(responseData);
      if |data| > 0 {
        data := data[..|data| - 1];
      }
      raw := data;
    }

    /**
      * Signs the rebuilt response string and compares the result with the
      * received hash ignoring case; a null received hash never matches.
      */
    method ValidateSignature(inputHash: Option<string>, secretKey: Option<string>, mac: Mac) returns (r: Result<bool, Error>)
      requires Valid()
      modifies this`responseData
      ensures Valid()
      ensures ToMap(responseData) == old(ToMap(responseData)) - {SecureHashTypeKey, SecureHashKey}
      ensures secretKey.None? <==> r == Failure(NullArgument)
      ensures secretKey.Some? ==> r.Success?
      ensures r.Success? ==>
        (r.value <==> EqualsIgnoreCase(HexOf(mac(secretKey.value, SignedString(ToMap(responseData)))), inputHash))
      ensures r.Success? ==>
        (r.value <==> inputHash.Some? && ParseHex(inputHash.value) == Some(mac(secretKey.value, SignedString(ToMap(responseData)))))
    {
      var rspRaw := GetResponseRaw();
      var myChecksum := HmacSha512(secretKey, rspRaw, mac);
      if myChecksum.Failure? {
        return Failure(myChecksum.error);
      }
      if inputHash.Some? {
        EqualsIgnoreCaseIffSameDigest(mac(secretKey.value, rspRaw), inputHash.value);
      }
      r := Success(EqualsIgnoreCase(myChecksum.value, inputHash));
    }
  }
}
