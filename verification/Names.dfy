/** Conversion between the names a user types and the eleven bytes stored in a slot: an eight-byte
    base and a three-byte extension, padded with spaces (section 6.1 of the Microsoft FAT
    Specification, August 2005). */
module Names {
  import opened Bytes
  import opened CStrings
  import opened Directory

  const SPACE: byte := 0x20
  const DOT: byte := 0x2E

  function Upper(c: byte): byte {
    if 'a' as int <= c <= 'z' as int then c - 'a' as int + 'A' as int else c
  }

  predicate IsLower(c: byte) { 'a' as int <= c <= 'z' as int }

  /** The first n bytes of s in upper case, padded with spaces. */
  function Field(s: seq<byte>, n: nat): (f: seq<byte>)
    ensures |f| == n
    ensures forall i :: 0 <= i < n ==> f[i] == if i < |s| then Upper(s[i]) else SPACE
  {
    seq(n, i requires 0 <= i < n => if i < |s| then Upper(s[i]) else SPACE)
  }

  /** What follows position `dot`. */
  function Behind(name: seq<byte>, dot: nat): seq<byte> {
    if dot < |name| then name[dot + 1..] else []
  }

  /** The stored form of a name: what precedes the first dot, and what follows it. */
  function ShortName(name: seq<byte>): Name11 {
    var dot := IndexOf(name, DOT);
    Field(name[..dot], 8) + Field(Behind(name, dot), 3)
  }

  /** A field without its padding. */
  function Trim(f: seq<byte>): seq<byte> { f[..IndexOf(f, SPACE)] }

  /** The displayed form of a stored name. */
  function Display(s: Name11): seq<byte> {
    Trim(s[..8]) + if s[8] != SPACE then [DOT] + Trim(s[8..]) else []
  }

  // ----- the two forms byte by byte -----

  /** How a typed byte is stored: a letter from 'a' to 'z' as its capital, anything else as it is. */
  predicate StoredAs(c: byte, r: byte) {
    if 0x61 <= c <= 0x7A then r == c - 0x20 else r == c
  }

  /** s is the stored form of a name whose first dot is at position `dot`, or which has none. */
  ghost predicate StoredForm(name: seq<byte>, dot: nat, s: seq<byte>) {
    && dot <= |name| && 0x2E !in name[..dot] && (dot < |name| ==> name[dot] == 0x2E) && |s| == 11
    && (forall k :: 0 <= k < 8 ==> if k < dot then StoredAs(name[k], s[k]) else s[k] == 0x20)
    && (forall k :: 8 <= k < 11 ==>
          if dot + (k - 7) < |name| then StoredAs(name[dot + (k - 7)], s[k]) else s[k] == 0x20)
  }

  lemma ShortNameInBytes(name: seq<byte>)
    ensures exists dot :: StoredForm(name, dot, ShortName(name))
  {
    var dot := IndexOf(name, DOT);
    forall k | 8 <= k < 11
      ensures ShortName(name)[k] == if dot + (k - 7) < |name| then Upper(name[dot + (k - 7)]) else 0x20
    {
      assert ShortName(name)[k] == Field(Behind(name, dot), 3)[k - 8];
    }
    assert StoredForm(name, dot, ShortName(name));
  }

  /** s is displayed as its bytes before the first space of each field, a dot between them when the
      extension is not empty; b and e are the lengths of the two. */
  lemma DisplayInBytes(s: Name11, b: nat, e: nat)
    requires b <= 8 && (forall k :: 0 <= k < b ==> s[k] != 0x20) && (b < 8 ==> s[b] == 0x20)
    requires e <= 3 && (forall k :: 8 <= k < 8 + e ==> s[k] != 0x20) && (e < 3 ==> s[8 + e] == 0x20)
    ensures Display(s) == s[..b] + if e == 0 then [] else [0x2E] + s[8..8 + e]
  {
    IndexOfIs(s[..8], 0x20, b) by {
      assert s[..8][..b] == s[..b];
    }
    IndexOfIs(s[8..], 0x20, e) by {
      assert forall k :: 0 <= k < e ==> s[8..][k] == s[8 + k];
    }
    assert s[..8][..b] == s[..b] && s[8..][..e] == s[8..8 + e];
  }

  /** The two spellings differ at most in the case of letters. */
  ghost predicate SameButCase(a: seq<byte>, b: seq<byte>) {
    |a| == |b| && forall k :: 0 <= k < |a| ==> SameLetter(a[k], b[k])
  }

  predicate SameLetter(c: byte, d: byte) {
    c == d || (0x61 <= c <= 0x7A && d == c - 0x20) || (0x61 <= d <= 0x7A && c == d - 0x20)
  }

  /** Names are the same to the driver however their letters are typed. */
  lemma CaseInsensitive(a: seq<byte>, b: seq<byte>)
    requires SameButCase(a, b)
    ensures ShortName(a) == ShortName(b)
  {
    var dot := IndexOf(a, DOT);
    assert forall k :: 0 <= k < |a| ==> (a[k] == DOT <==> b[k] == DOT) && Upper(a[k]) == Upper(b[k]);
    assert DOT !in b[..dot] by {
      assert forall k :: 0 <= k < dot ==> a[..dot][k] == a[k];
    }
    IndexOfIs(b, DOT, dot);
    assert Field(a[..dot], 8) == Field(b[..dot], 8);
    assert Field(Behind(a, dot), 3) == Field(Behind(b, dot), 3);
  }

  // ----- the driver's conversions -----

  /** The C string in a buffer: what precedes the first zero byte. */
  function CStr(bs: seq<byte>): (s: CString)
    ensures s <= bs && (|s| < |bs| ==> bs[|s|] == 0)
  {
    bs[..IndexOf(bs, 0)]
  }

  /** One of the driver's two copy loops: the n bytes from `at` on, still blank, become a field. */
  method FillField(text: seq<byte>, shortName: array<byte>, at: nat, n: nat)
    requires at + n <= shortName.Length && shortName[at..at + n] == Field([], n)
    modifies shortName
    ensures shortName[at..at + n] == Field(text, n)
    ensures shortName[..at] == old(shortName[..at]) && shortName[at + n..] == old(shortName[at + n..])
  {
    assert forall k :: at <= k < at + n ==> shortName[k] == shortName[at..at + n][k - at];
    var i := 0;
    while i < |text| && i < n
      invariant i <= |text| && i <= n
      invariant forall k :: at <= k < at + n ==> shortName[k] == if k - at < i then Upper(text[k - at]) else SPACE
      invariant shortName[..at] == old(shortName[..at]) && shortName[at + n..] == old(shortName[at + n..])
    {
      shortName[at + i] := Upper(text[i]);
      i := i + 1;
    }
  }

  lemma TwoFields(base: seq<byte>, ext: seq<byte>, buf: seq<byte>)
    requires |buf| == 11 && buf[0..8] == base && buf[8..11] == ext
    ensures buf == base + ext
  {
  }

  /** The body of make_short_name behind the search for the dot. */
  method FillName(name: CString, hasDot: bool, baseLen: nat, shortName: array<byte>)
    requires shortName.Length == 11 && shortName[0..8] == Field([], 8) && shortName[8..11] == Field([], 3)
    requires baseLen <= |name| && (hasDot <==> baseLen < |name|)
    modifies shortName
    ensures shortName[..] == Field(name[..baseLen], 8) + Field(Behind(name, baseLen), 3)
  {
    FillField(name[..baseLen], shortName, 0, 8);
    assert shortName[8..11] == shortName[8..];
    if hasDot {
      FillField(name[baseLen + 1..], shortName, 8, 3);
    }
    assert shortName[0..8] == shortName[..8];
    TwoFields(shortName[0..8], shortName[8..11], shortName[..]);
  }

  method MakeShortName(name: CString, shortName: array<byte>)
    requires shortName.Length == 11
    modifies shortName
    ensures shortName[..] == ShortName(name)
    ensures exists dot :: StoredForm(name, dot, shortName[..])
  {
    ShortNameInBytes(name);
    Memset(shortName, 0, SPACE, 11);
    var dot := Strchr(name, DOT);
    var baseLen;
    if dot >= 0 {
      baseLen := dot;
    } else {
      baseLen := Strlen(name);
    }
    FillName(name, dot >= 0, baseLen, shortName);
  }

  /** Appends to the `at` bytes in `out` what precedes the padding of the field `from .. to`. */
  method AppendField(shortName: array<byte>, from: nat, to: nat, out: array<byte>, at: nat) returns (j: nat)
    requires from <= to <= shortName.Length && at + (to - from) <= out.Length && out != shortName
    modifies out
    ensures at <= j <= at + (to - from)
    ensures out[..j] == old(out[..at]) + Trim(shortName[from..to])
  {
    ghost var f, before := shortName[from..to], out[..at];
    j := at;
    var i := from;
    while i < to && shortName[i] != SPACE
      invariant from <= i <= to && j == at + (i - from)
      invariant shortName[from..to] == f && SPACE !in f[..i - from]
      invariant out[..j] == before + f[..i - from]
    {
      out[j] := shortName[i];
      assert f[..i + 1 - from] == f[..i - from] + [shortName[i]];
      j := j + 1;
      i := i + 1;
    }
    IndexOfIs(f, SPACE, i - from);
  }

  /** Fills `out` with the displayed name and its terminator. */
  method MakeDisplayName(shortName: array<byte>, off: nat, out: array<byte>)
    requires off + 11 <= shortName.Length && out.Length == 13 && out != shortName
    modifies out
    ensures var d := Display(shortName[off..off + 11]);
      |d| <= 12 && out[..|d|] == d && out[|d|] == 0
  {
    ghost var s: Name11 := shortName[off..off + 11];
    assert s[..8] == shortName[off..off + 8] && s[8..] == shortName[off + 8..off + 11];
    var j := AppendField(shortName, off, off + 8, out, 0);
    if shortName[off + 8] != SPACE {
      out[j] := DOT;
      assert out[..j + 1] == Trim(s[..8]) + [DOT];
      j := AppendField(shortName, off + 8, off + 11, out, j + 1);
      assert Trim(s[..8]) + [DOT] + Trim(s[8..]) == Display(s);
    }
    out[j] := 0;
  }

  // ----- round trip -----

  /** Upper-case text without zero bytes, then nothing but padding. */
  predicate CanonicalField(f: seq<byte>) {
    forall i :: 0 <= i < |f| ==> if i < IndexOf(f, SPACE) then f[i] != 0 && !IsLower(f[i]) else f[i] == SPACE
  }

  predicate Canonical(s: Name11) {
    CanonicalField(s[..8]) && CanonicalField(s[8..]) && DOT !in s[..8]
  }

  lemma FieldOfTrim(f: seq<byte>)
    requires CanonicalField(f)
    ensures Field(Trim(f), |f|) == f
  {
    forall i | 0 <= i < |f| ensures Field(Trim(f), |f|)[i] == f[i] {
      assert i < IndexOf(f, SPACE) ==> Trim(f)[i] == f[i];
    }
  }

  lemma FieldIsCanonical(s: seq<byte>, n: nat)
    requires SPACE !in s && 0 !in s
    ensures CanonicalField(Field(s, n))
  {
    var f := Field(s, n);
    var k := if |s| < n then |s| else n;
    assert forall i :: 0 <= i < k ==> s[i] in s;
    IndexOfIs(f, SPACE, k);
  }

  /** The stored form of a name without spaces is canonical. */
  lemma ShortNameIsCanonical(name: CString)
    requires SPACE !in name
    ensures Canonical(ShortName(name))
  {
    var dot := IndexOf(name, DOT);
    var ext := Behind(name, dot);
    var s := ShortName(name);
    FieldIsCanonical(name[..dot], 8);
    FieldIsCanonical(ext, 3);
    assert s[..8] == Field(name[..dot], 8) && s[8..] == Field(ext, 3);
    assert forall i :: 0 <= i < dot ==> name[..dot][i] == name[i] && name[i] != DOT;
  }

  lemma TrimHasNoSpace(f: seq<byte>)
    ensures SPACE !in Trim(f)
  {
  }

  /** Base and extension of a canonical name as displayed. */
  lemma DisplayParts(s: Name11)
    requires Canonical(s)
    ensures var base, ext := Trim(s[..8]), Trim(s[8..]);
      && Field(base, 8) == s[..8] && Field(ext, 3) == s[8..]
      && DOT !in base && 0 !in base && 0 !in ext
      && (s[8] == SPACE ==> ext == [])
  {
    var base, ext := Trim(s[..8]), Trim(s[8..]);
    FieldOfTrim(s[..8]);
    FieldOfTrim(s[8..]);
    assert forall i :: 0 <= i < |base| ==> base[i] == s[..8][i];
    assert forall i :: 0 <= i < |ext| ==> ext[i] == s[8..][i];
    assert s[8..][0] == s[8];
  }

  /** A canonical name is shown without zero bytes, and its first dot is the separator. */
  lemma ShortOfDisplay(s: Name11)
    requires Canonical(s)
    ensures 0 !in Display(s) && ShortName(Display(s)) == s
  {
    var base, ext, d := Trim(s[..8]), Trim(s[8..]), Display(s);
    DisplayParts(s);
    IndexOfIs(d, DOT, |base|) by {
      assert d[..|base|] == base;
    }
    if s[8] != SPACE {
      assert d[|base| + 1..] == ext;
    }
    assert s == s[..8] + s[8..];
  }

  /** Storing the displayed form of a stored name gives that name again exactly if it is canonical. */
  lemma NameRoundTripIff(s: Name11)
    ensures ShortName(CStr(Display(s))) == s <==> Canonical(s)
  {
    if Canonical(s) {
      ShortOfDisplay(s);
      assert CStr(Display(s)) == Display(s);
    }
    var name := CStr(Display(s));
    assert SPACE !in Display(s) by {
      TrimHasNoSpace(s[..8]);
      TrimHasNoSpace(s[8..]);
    }
    ShortNameIsCanonical(name);
  }

  /** In particular every name typed without spaces survives. */
  lemma TypedNameRoundTrip(name: CString)
    requires SPACE !in name
    ensures ShortName(CStr(Display(ShortName(name)))) == ShortName(name)
  {
    ShortNameIsCanonical(name);
    NameRoundTripIff(ShortName(name));
  }

  /** A stored name never begins with a zero byte, and begins with 0xE5 only if the typed one does. */
  lemma ShortNameFirstByte(name: CString)
    ensures ShortName(name)[0] != 0
    ensures ShortName(name)[0] == 0xE5 <==> name != [] && name[0] == 0xE5
  {
    if name != [] && name[0] == DOT {
      IndexOfIs(name, DOT, 0);
    }
  }

  /** Looking up the name under which an entry is listed finds this very entry exactly if its stored
      name is canonical and no live entry before it has the same name. */
  lemma ListedNameFindsEntryIff(slots: seq<Slot>, i: nat)
    requires Live(slots, i)
    ensures FindFrom(slots, ShortName(CStr(Display(NameOf(slots[i])))), 0) == Hit(i)
       <==> Canonical(NameOf(slots[i])) && FirstLive(slots, NameOf(slots[i]), i)
  {
    var s := NameOf(slots[i]);
    NameRoundTripIff(s);
    FindIsFirstLive(slots, ShortName(CStr(Display(s))), 0, i);
  }
}
