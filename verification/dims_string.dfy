/**
 The text codec of the `Dims` enumeration (X, Y, Z, W and the sentinel DimsN),
 as generated by `stringer`: all five names are packed into one string and an
 offset table marks where each name starts and ends.

 `String` renders a value: a name for the five valid values, and
 "Dims(<decimal>)" for every other integer. `FromString` decodes a name by a
 linear search of the same table; on failure it reports an error and leaves
 the receiver as it was.
 */
module DimsString {
  import Decimal

  /** A Go `int` on a 64-bit platform; `Dims` is declared on it. */
  type Dims = i: int | -0x8000_0000_0000_0000 <= i < 0x8000_0000_0000_0000

  type uint8 = x: int | 0 <= x < 0x100

  /** The enumerants, numbered from zero as the generated table assumes. */
  const X: Dims := 0
  const Y: Dims := 1
  const Z: Dims := 2
  const W: Dims := 3
  const DimsN: Dims := 4

  /** The five names, concatenated. */
  const Name: string := "XYZWDimsN"

  /** Name `j` occupies `Name[Index[j]..Index[j + 1]]`. */
  const Index: seq<uint8> := [0, 1, 2, 3, 4, 9]

  /** The number of named values: one fewer than the number of offsets. */
  const Count: nat := |Index| - 1

  /** The names written out one by one, independently of the packed table. */
  const Names: seq<string> := ["X", "Y", "Z", "W", "DimsN"]

  predicate InRange(i: int) {
    0 <= i < Count
  }

  /** The offset table starts at zero, strictly increases and ends at the
      length of the packed string, so every name is an in-bounds, non-empty
      slice. */
  lemma IndexWellFormed()
    ensures |Index| == |Names| + 1
    ensures Index[0] == 0 && Index[Count] == |Name|
    ensures forall j :: 0 <= j < Count ==> Index[j] < Index[j + 1]
  {
  }

  /** The name of the `j`-th value, cut out of the packed string. */
  function Slice(j: nat): (r: string)
    requires j < Count
    ensures |r| >= 1
    ensures r == Names[j]
  {
    IndexWellFormed();
    assert j == 0 || j == 1 || j == 2 || j == 3 || j == 4;
    Name[Index[j]..Index[j + 1]]
  }

  /** The five names are pairwise distinct. */
  lemma NamesDistinct(i: nat, j: nat)
    requires i < Count && j < Count
    ensures Slice(i) == Slice(j) ==> i == j
  {
  }

  /** `Dims.String`: a valid value is rendered as its name, any other integer
      (negative ones included) as "Dims(" + its decimal value + ")". */
  function String(i: Dims): (r: string)
    ensures InRange(i) ==> r == Names[i]
    ensures !InRange(i) ==>
              && |r| >= 7
              && r[..5] == "Dims("
              && r[|r| - 1] == ')'
              && Decimal.IsSignedNumeral(r[5..|r| - 1])
              && Decimal.ParseInt(r[5..|r| - 1]) == i
  {
    if i < 0 || i >= Count as int then
      var r := "Dims(" + Decimal.FormatInt(i) + ")";
      assert r[5..|r| - 1] == Decimal.FormatInt(i);
      r
    else Slice(i)
  }

  /** Each enumerant is rendered as its own identifier. */
  lemma EnumerantNames()
    ensures String(X) == "X" && String(Y) == "Y" && String(Z) == "Z"
    ensures String(W) == "W" && String(DimsN) == "DimsN"
  {
  }

  /** The error `FromString` reports for a string that names no value. */
  function InvalidOption(s: string): string {
    "String: " + s + " is not a valid option for type: Dims"
  }

  datatype Option<T> = None | Some(value: T)

  /** The linear search of `FromString`, from position `j` of the table on:
      the first position whose name is `s`, if any. */
  function Search(s: string, j: nat): (r: Option<nat>)
    requires j <= Count
    ensures r.Some? ==> j <= r.value < Count && Slice(r.value) == s
    ensures r.Some? ==> forall k :: j <= k < r.value ==> Slice(k) != s
    ensures r.None? ==> forall k :: j <= k < Count ==> Slice(k) != s
    decreases Count - j
  {
    if j == Count then None
    else if s == Slice(j) then Some(j)
    else Search(s, j + 1)
  }

  /** What `FromString` leaves behind: the error it returns (`None` for Go's
      nil) and the receiver's value afterwards. */
  datatype Decoded = Decoded(err: Option<string>, receiver: Dims)

  /** `Dims.FromString` called on a receiver holding `receiver`. */
  function FromString(receiver: Dims, s: string): (r: Decoded)
    ensures r.err.None? ==> InRange(r.receiver) && String(r.receiver) == s
    ensures r.err.Some? ==> r.err.value == InvalidOption(s) && r.receiver == receiver
  {
    match Search(s, 0)
    case Some(j) => Decoded(None, j)
    case None => Decoded(Some(InvalidOption(s)), receiver)
  }

  /** `Dims.FromString` written as the loop it is: it scans the table in
      order and stops at the first name equal to `s`. */
  method FromStringLoop(receiver: Dims, s: string) returns (err: Option<string>, receiver': Dims)
    ensures Decoded(err, receiver') == FromString(receiver, s)
  {
    var j := 0;
    while j < |Index| - 1
      invariant 0 <= j <= Count
      invariant forall k :: 0 <= k < j ==> Slice(k) != s
    {
      if s == Name[Index[j]..Index[j + 1]] {
        return None, j;
      }
      j := j + 1;
    }
    return Some(InvalidOption(s)), receiver;
  }

  /** Every valid value survives encoding and decoding, whatever the receiver held. */
  lemma RoundTrip(i: Dims, receiver: Dims)
    requires InRange(i)
    ensures FromString(receiver, String(i)) == Decoded(None, i)
  {
    var r := Search(String(i), 0);
    assert r.Some? by {
      assert Slice(i) == String(i);
    }
    NamesDistinct(r.value, i);
  }

  /** `FromString` fails exactly on the strings that name no value, and then
      reports the fixed message and leaves the receiver alone. */
  lemma RejectsExactlyNonNames(receiver: Dims, s: string)
    ensures s !in Names <==> FromString(receiver, s) == Decoded(Some(InvalidOption(s)), receiver)
  {
    if s in Names {
      var j :| 0 <= j < |Names| && Names[j] == s;
      assert Slice(j) == s;
    }
  }

  /** Out-of-range renderings never decode: "Dims(..." differs from every name,
      in particular from "DimsN" at position 4. */
  lemma FallbackNeverDecodes(i: Dims, receiver: Dims)
    requires !InRange(i)
    ensures FromString(receiver, String(i)) == Decoded(Some(InvalidOption(String(i))), receiver)
  {
    var s := String(i);
    assert s[4] == '(';
    assert s !in Names;
    RejectsExactlyNonNames(receiver, s);
  }

  /** Distinct values are rendered as distinct strings. */
  lemma StringInjective(a: Dims, b: Dims)
    ensures String(a) == String(b) ==> a == b
  {
    if String(a) == String(b) {
      if InRange(a) && InRange(b) {
        NamesDistinct(a, b);
      } else if !InRange(a) && !InRange(b) {
        var sa, sb := String(a), String(b);
        assert sa[5..|sa| - 1] == sb[5..|sb| - 1];
      }
    }
  }
}
