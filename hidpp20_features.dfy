/** Feature discovery (HidPp20Features.ReadFeatures): ask Root where
    FeatureSet lives, then ask FeatureSet for the count and for every entry,
    building the ordered catalog the lookups run over. */
module Discovery {
  import opened Common
  import opened ByteUtils
  import opened Reports
  import opened FeatureCatalog
  import opened AbstractFeature
  import opened RootFeature
  import opened FeatureSetFeature

  /** A waited-for function call on the device: the response CallFunction
      returns for (feature index, function, parameters). */
  type FeatureCall = (byte, int, seq<byte>) -> Report

  /** The FeatureSet entry Root reports. */
  function FeatureSetInfo(call: FeatureCall): Result<FeatureInfo> {
    GetFeatureResult(FeatureSetCode, call(Low8(RootIndex), FuncGetFeature, GetFeatureParams(FeatureSetCode)))
  }

  /** FeatureSet's answer for entry i. */
  function Entry(call: FeatureCall, featureSetIndex: byte, i: int): (r: Result<FeatureInfo>)
    ensures r.Ok? ==> r.value.index == i
  {
    GetFeatureIdResult(i, call(featureSetIndex, FuncGetFeatureId, GetFeatureIdParams(i)))
  }

  /** The answers to the requests for indices 1..n, asked in order with
      `entry`; the first failure wins. */
  function Listing(entry: nat -> Result<FeatureInfo>, n: nat): (r: Result<seq<FeatureInfo>>)
    ensures r.Ok? ==> |r.value| == n && forall i :: 0 <= i < n ==> entry(i + 1) == Ok(r.value[i])
  {
    if n == 0 then Ok([])
    else
      match Listing(entry, n - 1)
      case Err(f) => Err(f)
      case Ok(front) =>
        match entry(n)
        case Err(f) => Err(f)
        case Ok(e) =>
          var entries := front + [e];
          assert entries[..n - 1] == front;
          Ok(entries)
  }

  /** A successful request for index n extends the listing of 1..n-1 by its answer. */
  lemma ListingStep(entry: nat -> Result<FeatureInfo>, n: nat)
    requires n >= 1 && Listing(entry, n - 1).Ok? && entry(n).Ok?
    ensures Listing(entry, n) == Ok(Listing(entry, n - 1).value + [entry(n).value])
  {
  }

  /** A failing request for index k makes every longer listing fail with its fault. */
  lemma {:induction false} ListingStopsAtFailure(entry: nat -> Result<FeatureInfo>, k: nat, n: nat)
    requires 1 <= k <= n
    requires Listing(entry, k - 1).Ok? && entry(k).Err?
    ensures Listing(entry, n) == Err(entry(k).fault)
    decreases n
  {
    if n > k {
      ListingStopsAtFailure(entry, k, n - 1);
    }
  }

  /** The entries FeatureSet reports for indices 1..n; entry i carries index i. */
  function Entries(call: FeatureCall, featureSetIndex: byte, n: nat): (r: Result<seq<FeatureInfo>>)
    ensures r.Ok? ==> |r.value| == n
    ensures r.Ok? ==> forall i :: 0 <= i < n ==> r.value[i].index == i + 1
  {
    var r := Listing(i => Entry(call, featureSetIndex, i), n);
    assert r.Ok? ==> forall i :: 0 <= i < n ==> Entry(call, featureSetIndex, i + 1) == Ok(r.value[i]);
    r
  }

  /** A successful request for index n extends the entries for 1..n-1. */
  lemma EntriesStep(call: FeatureCall, featureSetIndex: byte, n: nat)
    requires n >= 1 && Entries(call, featureSetIndex, n - 1).Ok? && Entry(call, featureSetIndex, n).Ok?
    ensures Entries(call, featureSetIndex, n)
            == Ok(Entries(call, featureSetIndex, n - 1).value + [Entry(call, featureSetIndex, n).value])
  {
    ListingStep(i => Entry(call, featureSetIndex, i), n);
  }

  /** A failing request for index k fails the entries for every n >= k with its fault. */
  lemma EntriesStopAtFailure(call: FeatureCall, featureSetIndex: byte, k: nat, n: nat)
    requires 1 <= k <= n
    requires Entries(call, featureSetIndex, k - 1).Ok? && Entry(call, featureSetIndex, k).Err?
    ensures Entries(call, featureSetIndex, n) == Err(Entry(call, featureSetIndex, k).fault)
  {
    ListingStopsAtFailure(i => Entry(call, featureSetIndex, i), k, n);
  }

  /** The FeatureSet object resolves its index from the one-entry catalog. */
  lemma FeatureSetBinding(info: FeatureInfo)
    requires info.code == FeatureSetCode && info.index >= 1
    ensures BindFeature([info], FeatureSetCode, None) == Ok(Binding(FeatureSetCode, Low8(info.index), info.version))
  {
  }

  /** What ReadFeatures stores: the FeatureSet entry, then entries 1..count. */
  function Discover(call: FeatureCall): Result<seq<FeatureInfo>> {
    var info :- FeatureSetInfo(call);
    match BindFeature([info], FeatureSetCode, None)
    case Err(f) => Err(f)
    case Ok(featureSet) => ListFeatures(call, info, featureSet.featureIndex)
  }

  /** The part of discovery that runs on the FeatureSet feature. */
  function ListFeatures(call: FeatureCall, info: FeatureInfo, featureSetIndex: byte): Result<seq<FeatureInfo>> {
    var count :- GetCountResult(call(featureSetIndex, FuncGetCount, []));
    var rest :- Entries(call, featureSetIndex, count);
    Ok([info] + rest)
  }

  /** The discovered catalog holds count + 1 entries: FeatureSet first, then
      the entries for indices 1..count in order; no index is -1, and the
      FeatureSet lookup finds the first entry. */
  lemma DiscoverShape(call: FeatureCall)
    requires Discover(call).Ok?
    ensures var v := Discover(call).value;
            var info := FeatureSetInfo(call).value;
            && info.code == FeatureSetCode
            && |v| == 1 + GetCountResult(call(Low8(info.index), FuncGetCount, [])).value
            && v[0] == info
            && (forall i :: 1 <= i < |v| ==> v[i].index == i)
            && (forall i :: 0 <= i < |v| ==> v[i].index >= 1)
            && GetFeatureIndex(v, FeatureSetCode) == info.index
  {
    var info := FeatureSetInfo(call).value;
    FeatureSetBinding(info);
  }

  /** On a discovered catalog a feature is supported exactly when its index
      lookup succeeds. */
  lemma DiscoveredLookups(call: FeatureCall, code: uint16)
    requires Discover(call).Ok?
    ensures IsSupported(Discover(call).value, code) <==> GetFeatureIndex(Discover(call).value, code) != -1
  {
    DiscoverShape(call);
    SupportedIffIndexFound(Discover(call).value, code);
  }

  class HidPp20Features {
    var features: seq<FeatureInfo>

    constructor ()
      ensures features == []
    {
      features := [];
    }

    /** Discovery as written: one Root call for the FeatureSet entry, then
        the FeatureSet part. */
    method ReadFeatures(call: FeatureCall) returns (s: Status)
      requires features == []
      modifies this
      ensures s.Done? <==> Discover(call).Ok?
      ensures s.Done? ==> features == Discover(call).value
      ensures s.Raised? ==> Discover(call) == Err(s.fault)
    {
      var info := FeatureSetInfo(call);
      if info.Err? {
        return Raised(info.fault);
      }
      var featureSetInfo := info.value;
      features := features + [featureSetInfo];
      FeatureSetBinding(featureSetInfo);
      var featureSet := BindFeature(features, FeatureSetCode, None).value;
      s := ListEntries(call, featureSetInfo, featureSet.featureIndex);
    }

    /** One GetCount, then the entries for indices 1..count. */
    method ListEntries(call: FeatureCall, info: FeatureInfo, featureSetIndex: byte) returns (s: Status)
      requires features == [info]
      modifies this
      ensures s.Done? <==> ListFeatures(call, info, featureSetIndex).Ok?
      ensures s.Done? ==> features == ListFeatures(call, info, featureSetIndex).value
      ensures s.Raised? ==> ListFeatures(call, info, featureSetIndex) == Err(s.fault)
    {
      var countResult := GetCountResult(call(featureSetIndex, FuncGetCount, []));
      if countResult.Err? {
        return Raised(countResult.fault);
      }
      s := AppendEntries(call, featureSetIndex, countResult.value);
    }

    /** The loop over the indices 1..count, appending each entry; the first
        failing request ends it. */
    method AppendEntries(call: FeatureCall, featureSetIndex: byte, count: nat) returns (s: Status)
      modifies this
      ensures s.Done? <==> Entries(call, featureSetIndex, count).Ok?
      ensures s.Done? ==> features == old(features) + Entries(call, featureSetIndex, count).value
      ensures s.Raised? ==> Entries(call, featureSetIndex, count) == Err(s.fault)
    {
      ghost var start := features;
      ghost var done: seq<FeatureInfo> := [];
      var ii := 1;
      while ii <= count
        invariant 1 <= ii <= count + 1
        invariant Entries(call, featureSetIndex, ii - 1) == Ok(done)
        invariant features == start + done
      {
        var entry := Entry(call, featureSetIndex, ii);
        if entry.Err? {
          EntriesStopAtFailure(call, featureSetIndex, ii, count);
          return Raised(entry.fault);
        }
        EntriesStep(call, featureSetIndex, ii);
        done := done + [entry.value];
        features := features + [entry.value];
        ii := ii + 1;
      }
      return Done;
    }
  }
}
