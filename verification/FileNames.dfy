/** The byte-bounded file names of `local_operator/browser_files.py`. */
module FileNames {
  import opened Utf8

  const DOT: Scalar := 0x2E

  /** The longest extension that is treated as one. */
  const MAX_EXTENSION: nat := 12

  function Bytes(name: seq<Scalar>): nat {
    |Encode(name)|
  }

  /** The last dot of a name, or -1. */
  function LastDot(name: seq<Scalar>): (at: int)
    ensures -1 <= at < |name|
    ensures at >= 0 ==> name[at] == DOT
    ensures forall i :: at < i < |name| ==> name[i] != DOT
  {
    if name == [] then -1
    else if name[|name| - 1] == DOT then |name| - 1
    else LastDot(name[..|name| - 1])
  }

  /** `rpartition(".")`, with an overlong "extension" counted as part of the stem. */
  function Extension(name: seq<Scalar>): (ext: seq<Scalar>)
    ensures |ext| <= MAX_EXTENSION && DOT !in ext
  {
    var at := LastDot(name);
    if at < 0 || |name| - at - 1 > MAX_EXTENSION then [] else name[at + 1..]
  }

  function Stem(name: seq<Scalar>): seq<Scalar> {
    var at := LastDot(name);
    if at < 0 || |name| - at - 1 > MAX_EXTENSION then name else name[..at]
  }

  function Budget(ext: seq<Scalar>, limit: nat): int {
    if ext == [] then limit else limit - (Bytes(ext) + 1)
  }

  function Joined(stem: seq<Scalar>, ext: seq<Scalar>): seq<Scalar> {
    if ext == [] then stem else stem + [DOT] + ext
  }

  /** The longest prefix within a byte budget. */
  function FittingPrefix(head: seq<Scalar>, budget: nat): (prefix: seq<Scalar>)
    ensures prefix <= head && Bytes(prefix) <= budget
    ensures prefix != head ==> Bytes(head[..|prefix| + 1]) > budget
  {
    if Bytes(head) <= budget then head
    else
      var shorter := head[..|head| - 1];
      var prefix := FittingPrefix(shorter, budget);
      assert prefix == shorter ==> head[..|prefix| + 1] == head;
      assert prefix != shorter ==> shorter[..|prefix| + 1] == head[..|prefix| + 1];
      prefix
  }

  /** `_truncate_bytes`; with a limit below 8 that function need not return. */
  function Truncated(name: seq<Scalar>, limit: nat): seq<Scalar>
    requires limit >= 8
    decreases |name|
  {
    var ext := Extension(name);
    if Bytes(ext) > limit - 8 then Truncated(name[..|name| / 2], limit)
    else Joined(FittingPrefix(Stem(name), Budget(ext, limit)), ext)
  }

  method TruncateBytes(name: seq<Scalar>, limit: nat) returns (result: seq<Scalar>)
    requires limit >= 8
    ensures result == Truncated(name, limit)
    decreases |name|
  {
    var head, ext := Stem(name), Extension(name);
    if Bytes(ext) > limit - 8 {
      result := TruncateBytes(name[..|name| / 2], limit);
      return;
    }
    var budget := limit - (if ext != [] then Bytes(ext) + 1 else 0);
    while Bytes(head) > budget
      invariant FittingPrefix(head, budget) == FittingPrefix(Stem(name), budget)
      decreases |head|
    {
      head := head[..|head| - 1];
    }
    result := if ext != [] then head + [DOT] + ext else head;
  }

  /** A name is its stem and its extension with a dot between; an empty or overlong one is none. */
  lemma NameSplits(name: seq<Scalar>)
    ensures var stem, ext := Stem(name), Extension(name);
            && (ext != [] ==> name == stem + [DOT] + ext)
            && (ext == [] ==> stem == name || name == stem + [DOT])
            && (name != [] && name[|name| - 1] == DOT ==> ext == [] && |stem| < |name|)
            && (name == [] || name[|name| - 1] != DOT ==> Joined(stem, ext) == name)
            && (ext == [] <==> forall k :: 0 <= k < |name| && name[k] == DOT && |name| - k - 1 <= 12 ==>
                                 k == |name| - 1 || exists l :: k < l < |name| && name[l] == DOT)
  {
    var at := LastDot(name);
    if at >= 0 {
      assert name == name[..at] + [DOT] + name[at + 1..];
    }
  }

  lemma {:induction false} AtMostFourBytesEach(text: seq<Scalar>)
    ensures Bytes(text) <= 4 * |text|
  {
    if text != [] {
      AtMostFourBytesEach(text[1..]);
    }
  }

  /** With any limit the program uses an extension always fits, so the name is never halved. */
  lemma ExtensionAlwaysFits(name: seq<Scalar>, limit: nat)
    requires limit >= 8 + 4 * MAX_EXTENSION
    ensures Bytes(Extension(name)) <= limit - 8
  {
    AtMostFourBytesEach(Extension(name));
  }

  lemma BytesOfJoined(stem: seq<Scalar>, ext: seq<Scalar>)
    ensures Bytes(Joined(stem, ext)) == Bytes(stem) + (if ext == [] then 0 else Bytes(ext) + 1)
  {
    if ext != [] {
      EncodeAppend(stem + [DOT], ext);
      EncodeAppend(stem, [DOT]);
      assert Encode([DOT]) == EncodeOne(DOT) + Encode([]) by {
        EncodeCons(DOT, []);
        assert [DOT] + [] == [DOT];
      }
    }
  }

  /** The result is within the limit, whatever the name. */
  lemma {:induction false} TruncatedFits(name: seq<Scalar>, limit: nat)
    requires limit >= 8
    ensures Bytes(Truncated(name, limit)) <= limit
    decreases |name|
  {
    var ext := Extension(name);
    if Bytes(ext) > limit - 8 {
      TruncatedFits(name[..|name| / 2], limit);
    } else {
      BytesOfJoined(FittingPrefix(Stem(name), Budget(ext, limit)), ext);
    }
  }

  /** A short enough extension survives whole, after the longest stem that leaves room for it. */
  lemma ExtensionSurvives(name: seq<Scalar>, limit: nat)
    requires limit >= 8 && Bytes(Extension(name)) <= limit - 8
    ensures exists stem :: stem <= Stem(name) && Truncated(name, limit) == Joined(stem, Extension(name)) &&
              (stem == Stem(name) || Bytes(Joined(Stem(name)[..|stem| + 1], Extension(name))) > limit)
  {
    var ext := Extension(name);
    var stem := FittingPrefix(Stem(name), Budget(ext, limit));
    if stem != Stem(name) {
      BytesOfJoined(Stem(name)[..|stem| + 1], ext);
    }
  }

  /** Under a smaller limit a name whose extension does not fit is treated as its first half. */
  lemma OverlongExtensionHalves(name: seq<Scalar>, limit: nat)
    requires limit >= 8 && Bytes(Extension(name)) > limit - 8
    ensures name != [] && Truncated(name, limit) == Truncated(name[..|name| / 2], limit)
  {
    assert Bytes([]) == 0;
  }

  lemma {:induction false} TruncatedNoLonger(name: seq<Scalar>, limit: nat)
    requires limit >= 8
    ensures |Truncated(name, limit)| <= |name|
    decreases |name|
  {
    if Bytes(Extension(name)) > limit - 8 {
      TruncatedNoLonger(name[..|name| / 2], limit);
    }
  }

  /**
   A name comes back as it was exactly when it fits, does not end in a dot (that dot is dropped, for
   there is no extension to join) and has no extension too long for the limit.
   */
  lemma UnchangedExactlyWhen(name: seq<Scalar>, limit: nat)
    requires limit >= 8
    ensures Truncated(name, limit) == name <==>
            && Bytes(name) <= limit
            && (name == [] || name[|name| - 1] != DOT)
            && Bytes(Extension(name)) <= limit - 8
  {
    var ext, stem := Extension(name), Stem(name);
    if Bytes(ext) > limit - 8 {
      TruncatedNoLonger(name[..|name| / 2], limit);
    } else {
      BytesOfJoined(stem, ext);
      TruncatedFits(name, limit);
      NameSplits(name);
      hide Bytes, Extension, Stem, LastDot;
    }
  }
}
