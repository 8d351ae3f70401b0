/** The import directory of a mapped PE image, as imports_from_file and rebuild walk it. */
module PeImports {
  import opened Machine
  import opened GuestMemory

  type Str = seq<byte>

  datatype Import = Import(dll: Str, name: Str, slot: nat)

  /** The fields of a 20-byte import descriptor that matter. */
  datatype Descriptor = Descriptor(ilt: nat, name: nat, iat: nat)

  const NULL: Descriptor := Descriptor(0, 0, 0)

  /** A little-endian field, or the error for a truncated structure. */
  function Field(img: seq<byte>, off: nat, n: nat): Option<nat> {
    if off + n <= |img| then Some(FromLe(img[off..off + n])) else None
  }

  // ----- Strings -----

  const STRING_LIMIT: nat := 4096

  /** The first zero byte in [from, limit), or `limit`. */
  function FindZero(img: seq<byte>, from: nat, limit: nat): (r: nat)
    requires from <= limit <= |img|
    ensures from <= r <= limit && (r < limit ==> img[r] == 0) && forall x :: from <= x < r ==> img[x] != 0
    decreases limit - from
  {
    if from == limit || img[from] == 0 then from else FindZero(img, from + 1, limit)
  }

  predicate Ascii(s: Str) { forall i :: 0 <= i < |s| ==> s[i] < 128 }

  function StringEnd(img: seq<byte>, off: nat): nat
    requires off < |img|
  {
    FindZero(img, off, Min(|img|, off + STRING_LIMIT))
  }

  /** read_c_string; None is the error. */
  function CString(img: seq<byte>, off: nat): Option<Str> {
    if off >= |img| then None
    else
      var end := StringEnd(img, off);
      if end == Min(|img|, off + STRING_LIMIT) then None
      else if !Ascii(img[off..end]) then None
      else Some(img[off..end])
  }

  function Lower(s: Str): (r: Str)
    ensures |r| == |s|
  {
    if s == [] then [] else [if 65 <= s[0] <= 90 then s[0] + 32 else s[0]] + Lower(s[1..])
  }

  /** A string the format can hold: ASCII, no NUL, terminated within the limit. */
  ghost predicate Storable(s: Str) { Ascii(s) && 0 !in s && |s| < STRING_LIMIT }

  lemma CStringAt(img: seq<byte>, off: nat, s: Str)
    requires At(img, off, s + [0]) && Storable(s)
    ensures CString(img, off) == Some(s)
  {
    var w := s + [0];
    assert forall i :: 0 <= i < |w| ==> img[off + i] == img[off..off + |w|][i] == w[i];
    var end := StringEnd(img, off);
    var z := off + |s|;
    assert img[z] == w[|s|] == 0;
    assert forall x :: off <= x < z ==> img[x] == w[x - off] && w[x - off] in s;
    assert end == z;
    assert img[off..z] == s;
  }

  function Digits(n: nat): Str {
    if n < 10 then [48 + n] else Digits(n / 10) + [48 + n % 10]
  }

  /** `#` and the low 16 bits in decimal. */
  function OrdinalName(value: nat): Str { [35] + Digits(value % 0x1_0000) }

  predicate IsOrdinal(value: nat) { value / 0x8000_0000_0000_0000 != 0 }

  function SymbolName(img: seq<byte>, value: nat): Option<Str> {
    if IsOrdinal(value) then Some(OrdinalName(value)) else CString(img, value + 2)
  }

  // ----- Walking the tables -----

  /** The entries of one lookup table from `index` on. */
  function Thunks(img: seq<byte>, table: nat, iat: nat, dll: Str, index: nat): Option<seq<Import>>
    decreases |img| - 8 * index
  {
    match Field(img, table + index * 8, 8)
    case None => None
    case Some(value) =>
      if value == 0 then Some([])
      else
        match SymbolName(img, value)
        case None => None
        case Some(name) =>
          match Thunks(img, table, iat, dll, index + 1)
          case None => None
          case Some(rest) => Some([Import(dll, name, iat + index * 8)] + rest)
  }

  function OneDll(img: seq<byte>, d: Descriptor): Option<seq<Import>> {
    match CString(img, d.name)
    case None => None
    case Some(dll) => Thunks(img, if d.ilt != 0 then d.ilt else d.iat, d.iat, Lower(dll), 0)
  }

  function DescriptorAt(img: seq<byte>, off: nat): Option<Descriptor> {
    if off + 20 > |img| then None
    else
      Some(Descriptor(FromLe(img[off..off + 4]), FromLe(img[off + 12..off + 16]), FromLe(img[off + 16..off + 20])))
  }

  /** The imports listed by the descriptors in [off, end). */
  function Imports(img: seq<byte>, off: nat, end: nat): Option<seq<Import>>
    decreases end - off
  {
    if off >= end then Some([])
    else
      match DescriptorAt(img, off)
      case None => None
      case Some(d) =>
        if d == NULL then Some([])
        else
          match OneDll(img, d)
          case None => None
          case Some(first) =>
            match Imports(img, off + 20, end)
            case None => None
            case Some(rest) => Some(first + rest)
  }

  method ReadImports(img: seq<byte>, directory: nat, size: nat) returns (r: Option<seq<Import>>)
    ensures r == Imports(img, directory, directory + size)
  {
    hide OneDll, DescriptorAt;
    var result: seq<Import> := [];
    var offset, end := directory, directory + size;
    ImportsFromStart(img, directory, end);
    while offset < end
      invariant ImportsFrom(img, offset, end, result) == Imports(img, directory, end)
    {
      var d := DescriptorAt(img, offset);
      if d.None? {
        return None;
      }
      if d.value == NULL {
        break;
      }
      var part := ReadOneDll(img, d.value);
      if part.None? {
        return None;
      }
      ImportsFromNext(img, offset, end, result, part.value);
      result := result + part.value;
      offset := offset + 20;
    }
    assert result + [] == result;
    return Some(result);
  }

  /** What is already read, followed by what the descriptors from `off` on give. */
  function ImportsFrom(img: seq<byte>, off: nat, end: nat, done: seq<Import>): Option<seq<Import>> {
    match Imports(img, off, end)
    case None => None
    case Some(rest) => Some(done + rest)
  }

  lemma ImportsFromStart(img: seq<byte>, off: nat, end: nat)
    ensures ImportsFrom(img, off, end, []) == Imports(img, off, end)
  {
    var rest := Imports(img, off, end);
    assert rest.Some? ==> [] + rest.value == rest.value;
  }

  lemma ImportsFromNext(img: seq<byte>, off: nat, end: nat, done: seq<Import>, part: seq<Import>)
    requires off < end && DescriptorAt(img, off).Some? && DescriptorAt(img, off).value != NULL
    requires OneDll(img, DescriptorAt(img, off).value) == Some(part)
    ensures ImportsFrom(img, off, end, done) == ImportsFrom(img, off + 20, end, done + part)
  {
    hide OneDll, DescriptorAt;
    var rest := Imports(img, off + 20, end);
    if rest.Some? {
      assert done + (part + rest.value) == done + part + rest.value;
    }
  }

  method ReadOneDll(img: seq<byte>, d: Descriptor) returns (r: Option<seq<Import>>)
    ensures r == OneDll(img, d)
  {
    hide CString, SymbolName, Lower, Field;
    var name := CString(img, d.name);
    if name.None? {
      return None;
    }
    var dll := Lower(name.value);
    var table := if d.ilt != 0 then d.ilt else d.iat;
    var result: seq<Import> := [];
    var index := 0;
    ThunksFromStart(img, table, d.iat, dll);
    while true
      invariant ThunksFrom(img, table, d.iat, dll, index, result) == Thunks(img, table, d.iat, dll, 0)
      decreases |img| - 8 * index
    {
      var value := Field(img, table + index * 8, 8);
      FieldInside(img, table + index * 8);
      if value.None? {
        return None;
      }
      if value.value == 0 {
        break;
      }
      var symbol := SymbolName(img, value.value);
      if symbol.None? {
        return None;
      }
      ThunksFromNext(img, table, d.iat, dll, index, result, symbol.value);
      result := result + [Import(dll, symbol.value, d.iat + index * 8)];
      index := index + 1;
    }
    assert result + [] == result;
    return Some(result);
  }

  lemma FieldInside(img: seq<byte>, off: nat)
    ensures Field(img, off, 8).Some? ==> off + 8 <= |img|
  {
  }

  function ThunksFrom(img: seq<byte>, table: nat, iat: nat, dll: Str, index: nat, done: seq<Import>): Option<seq<Import>> {
    match Thunks(img, table, iat, dll, index)
    case None => None
    case Some(rest) => Some(done + rest)
  }

  lemma ThunksFromStart(img: seq<byte>, table: nat, iat: nat, dll: Str)
    ensures ThunksFrom(img, table, iat, dll, 0, []) == Thunks(img, table, iat, dll, 0)
  {
    var rest := Thunks(img, table, iat, dll, 0);
    assert rest.Some? ==> [] + rest.value == rest.value;
  }

  lemma ThunksFromNext(img: seq<byte>, table: nat, iat: nat, dll: Str, index: nat, done: seq<Import>, name: Str)
    requires Field(img, table + index * 8, 8).Some? && Field(img, table + index * 8, 8).value != 0
    requires SymbolName(img, Field(img, table + index * 8, 8).value) == Some(name)
    ensures ThunksFrom(img, table, iat, dll, index, done)
         == ThunksFrom(img, table, iat, dll, index + 1, done + [Import(dll, name, iat + index * 8)])
  {
    hide SymbolName, Field;
    var rest := Thunks(img, table, iat, dll, index + 1);
    if rest.Some? {
      var e := [Import(dll, name, iat + index * 8)];
      assert done + (e + rest.value) == done + e + rest.value;
    }
  }

  /** Entries take consecutive slots of the address table. */
  lemma {:induction false} ThunkSlots(img: seq<byte>, table: nat, iat: nat, dll: Str, index: nat)
    ensures var r := Thunks(img, table, iat, dll, index);
            r.Some? ==> forall k :: 0 <= k < |r.value| ==> r.value[k].slot == iat + (index + k) * 8
    decreases |img| - 8 * index
  {
    hide SymbolName;
    var f := Field(img, table + index * 8, 8);
    if f.Some? && f.value != 0 {
      ThunkSlots(img, table, iat, dll, index + 1);
    }
  }

  lemma DllSlots(img: seq<byte>, d: Descriptor, part: seq<Import>)
    requires OneDll(img, d) == Some(part)
    ensures forall k :: 0 <= k < |part| ==> part[k].slot == d.iat + k * 8
  {
    hide Thunks, CString;
    var dll := Lower(CString(img, d.name).value);
    ThunkSlots(img, if d.ilt != 0 then d.ilt else d.iat, d.iat, dll, 0);
  }

  // ----- What a walk depends on -----

  /** `now` still has the bytes of `img` at the kept addresses. */
  ghost predicate Keeps(img: seq<byte>, now: seq<byte>, kept: set<nat>) {
    |img| <= |now| && forall x :: x in kept && x < |img| ==> now[x] == img[x]
  }

  ghost predicate RangeKept(kept: set<nat>, lo: nat, hi: nat) {
    forall x :: lo <= x < hi ==> x in kept
  }

  ghost predicate StringKept(img: seq<byte>, kept: set<nat>, off: nat) {
    off < |img| ==> RangeKept(kept, off, StringEnd(img, off) + 1)
  }

  /** Every byte the walk of a lookup table reads, names included, is kept. */
  ghost predicate ThunksKept(img: seq<byte>, kept: set<nat>, table: nat, index: nat)
    decreases |img| - 8 * index
  {
    var f := Field(img, table + index * 8, 8);
    f.Some? ==>
      && RangeKept(kept, table + index * 8, table + index * 8 + 8)
      && (f.value != 0 ==>
            && (!IsOrdinal(f.value) ==> StringKept(img, kept, f.value + 2))
            && ThunksKept(img, kept, table, index + 1))
  }

  ghost predicate DllKept(img: seq<byte>, kept: set<nat>, d: Descriptor) {
    StringKept(img, kept, d.name) && ThunksKept(img, kept, if d.ilt != 0 then d.ilt else d.iat, 0)
  }

  lemma FieldKept(img: seq<byte>, now: seq<byte>, kept: set<nat>, off: nat, n: nat)
    requires Keeps(img, now, kept) && RangeKept(kept, off, off + n)
    ensures Field(img, off, n).Some? ==> Field(now, off, n) == Field(img, off, n)
  {
    if off + n <= |img| {
      assert now[off..off + n] == img[off..off + n];
    }
  }

  lemma CStringKept(img: seq<byte>, now: seq<byte>, kept: set<nat>, off: nat)
    requires Keeps(img, now, kept) && StringKept(img, kept, off)
    ensures CString(img, off).Some? ==> CString(now, off) == CString(img, off)
  {
    if CString(img, off).Some? {
      var end := StringEnd(img, off);
      assert forall x :: off <= x <= end ==> x in kept && now[x] == img[x];
      var there := StringEnd(now, off);
      assert there == end;
      assert now[off..end] == img[off..end];
    }
  }

  lemma SymbolKept(img: seq<byte>, now: seq<byte>, kept: set<nat>, value: nat)
    requires Keeps(img, now, kept) && (!IsOrdinal(value) ==> StringKept(img, kept, value + 2))
    ensures SymbolName(img, value).Some? ==> SymbolName(now, value) == SymbolName(img, value)
  {
    hide CString, StringKept;
    if !IsOrdinal(value) {
      CStringKept(img, now, kept, value + 2);
    }
  }

  lemma {:induction false} ThunksSame(img: seq<byte>, now: seq<byte>, kept: set<nat>, table: nat, iat: nat, dll: Str, index: nat)
    requires Keeps(img, now, kept) && ThunksKept(img, kept, table, index)
    ensures Thunks(img, table, iat, dll, index).Some?
        ==> Thunks(now, table, iat, dll, index) == Thunks(img, table, iat, dll, index)
    decreases |img| - 8 * index
  {
    hide SymbolName, StringKept, RangeKept, Keeps;
    var f := Field(img, table + index * 8, 8);
    FieldInside(img, table + index * 8);
    if f.Some? {
      FieldKept(img, now, kept, table + index * 8, 8);
      if f.value != 0 {
        SymbolKept(img, now, kept, f.value);
        ThunksSame(img, now, kept, table, iat, dll, index + 1);
      }
    }
  }

  /** A DLL whose tables and strings are kept still lists the same imports. */
  lemma OneDllSame(img: seq<byte>, now: seq<byte>, kept: set<nat>, d: Descriptor)
    requires Keeps(img, now, kept) && DllKept(img, kept, d)
    ensures OneDll(img, d).Some? ==> OneDll(now, d) == OneDll(img, d)
  {
    hide CString, Thunks, ThunksKept, Keeps, Lower;
    CStringKept(img, now, kept, d.name);
    var dll := CString(img, d.name);
    if dll.Some? {
      ThunksSame(img, now, kept, if d.ilt != 0 then d.ilt else d.iat, d.iat, Lower(dll.value), 0);
    }
  }

  // ----- Lists of descriptors -----

  function Concat(parts: seq<seq<Import>>): seq<Import> {
    if parts == [] then [] else parts[0] + Concat(parts[1..])
  }

  /** Descriptors `ds` from `off` on, then a null one or the end, list the DLLs' imports in order. */
  lemma {:induction false} ImportsList(img: seq<byte>, off: nat, end: nat, ds: seq<Descriptor>, parts: seq<seq<Import>>)
    requires |parts| == |ds| && off + 20 * |ds| < end
    requires forall i :: 0 <= i < |ds| ==> DescriptorAt(img, off + 20 * i) == Some(ds[i]) && ds[i] != NULL
    requires forall i :: 0 <= i < |ds| ==> OneDll(img, ds[i]) == Some(parts[i])
    requires DescriptorAt(img, off + 20 * |ds|) == Some(NULL)
    ensures Imports(img, off, end) == Some(Concat(parts))
    decreases |ds|
  {
    hide OneDll, DescriptorAt;
    if ds != [] {
      assert DescriptorAt(img, off + 20 * 0) == Some(ds[0]);
      forall i | 0 <= i < |ds[1..]|
        ensures DescriptorAt(img, off + 20 + 20 * i) == Some(ds[1..][i])
      {
        assert DescriptorAt(img, off + 20 * (i + 1)) == Some(ds[i + 1]);
      }
      assert off + 20 + 20 * |ds[1..]| == off + 20 * |ds|;
      ImportsList(img, off + 20, end, ds[1..], parts[1..]);
    }
  }
}
