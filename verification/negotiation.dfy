/**
  The media-type scan of CaptureFrame. The source reader's native media types
  are visited in index order; the first one whose subtype GUID can be read,
  is RGB32 or YUY2, and is accepted by SetCurrentMediaType becomes the
  current type. The scan stops at the first index GetNativeMediaType cannot
  produce; if nothing was set, CaptureFrame returns ERROR_UNSUPPORTED_TYPE.
*/
module Negotiation {
  import opened Common

  /** The MF_MT_SUBTYPE GUID of a media type; every other GUID is an opaque value. */
  datatype Subtype = Rgb32 | Yuy2 | OtherSubtype(guid: nat)

  /**
    What the scan learns about one native media type: its subtype, or None
    when GetGUID fails, and whether SetCurrentMediaType accepts it.
  */
  datatype NativeType = NativeType(subtype: Option<Subtype>, setSucceeds: bool)

  /** The outcome of the scan: the index and subtype that were set, or nothing. */
  datatype Negotiation = Selected(index: nat, subtype: Subtype) | Unsupported

  /** The two subtypes the conversion code understands. */
  predicate Supported(s: Subtype)
  {
    s.Rgb32? || s.Yuy2?
  }

  /** A media type the scan stops at: readable, supported, and set successfully. */
  predicate Acceptable(t: NativeType)
  {
    t.subtype.Some? && Supported(t.subtype.value) && t.setSucceeds
  }

  /**
    GetNativeMediaType yields a type at index k and at every index before it.
    `native[k] == None` is a failed call; so is every index past the end.
  */
  ghost predicate Reached(native: seq<Option<NativeType>>, k: nat)
  {
    k < |native| && forall j :: 0 <= j <= k ==> native[j].Some?
  }

  /** Scan from index i on, as the program's `while (true)` loop does with its counter. */
  function ScanFrom(native: seq<Option<NativeType>>, i: nat): (r: Negotiation)
    requires i <= |native|
    requires forall j :: 0 <= j < i ==> native[j].Some? && !Acceptable(native[j].value)
    decreases |native| - i
    ensures r.Selected? ==> i <= r.index && Reached(native, r.index) && Acceptable(native[r.index].value)
    ensures r.Selected? ==> native[r.index].value.subtype == Some(r.subtype)
    ensures r.Selected? ==> forall j :: 0 <= j < r.index ==> !Acceptable(native[j].value)
    ensures r.Unsupported? ==> forall k :: 0 <= k < |native| && Reached(native, k) ==> !Acceptable(native[k].value)
  {
    if i == |native| || native[i].None? then Unsupported
    else if Acceptable(native[i].value) then Selected(i, native[i].value.subtype.value)
    else ScanFrom(native, i + 1)
  }

  /**
    The whole scan: the selected index is the lowest one GetNativeMediaType
    reaches whose type is acceptable, and nothing is selected only when no
    reachable type is acceptable.
  */
  function Negotiate(native: seq<Option<NativeType>>): (r: Negotiation)
    ensures r.Selected? ==> Reached(native, r.index) && Acceptable(native[r.index].value)
    ensures r.Selected? ==> Supported(r.subtype) && native[r.index].value.subtype == Some(r.subtype)
    ensures r.Selected? ==> forall j :: 0 <= j < r.index ==> !Acceptable(native[j].value)
    ensures r.Unsupported? <==> forall k :: 0 <= k < |native| && Reached(native, k) ==> !Acceptable(native[k].value)
  {
    ScanFrom(native, 0)
  }

  /**
    Nothing at or after the first failed GetNativeMediaType is consulted:
    cutting the list there, or replacing what follows, changes nothing.
  */
  lemma {:induction false} ScanStopsAtFailure(native: seq<Option<NativeType>>, k: nat, later: seq<Option<NativeType>>)
    requires k < |native| && native[k].None?
    ensures Negotiate(native[..k + 1] + later) == Negotiate(native)
  {
    var other := native[..k + 1] + later;
    assert forall j :: 0 <= j <= k ==> other[j] == native[j];
    ScanAgrees(native, other, k, 0);
  }

  /** Two lists that agree up to and including a failed index k scan alike from any i <= k. */
  lemma {:induction false} ScanAgrees(a: seq<Option<NativeType>>, b: seq<Option<NativeType>>, k: nat, i: nat)
    requires k < |a| && k < |b| && a[k].None?
    requires forall j :: 0 <= j <= k ==> a[j] == b[j]
    requires i <= k
    requires forall j :: 0 <= j < i ==> a[j].Some? && !Acceptable(a[j].value)
    ensures ScanFrom(a, i) == ScanFrom(b, i)
    decreases k - i
  {
    if i < k && a[i].Some? && !Acceptable(a[i].value) {
      ScanAgrees(a, b, k, i + 1);
    }
  }
}
