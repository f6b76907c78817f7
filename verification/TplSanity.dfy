/** The checks on an image's preamble, in the order tpl_sanity makes them. */
module TplSanity {
  import opened Bytes
  import opened TplWords
  import opened TplCodec
  import opened TplImage

  const NOT_MINSIZE: int := -1
  const MAGIC_MISMATCH: int := -2
  const INCONSISTENT_SZ: int := -3
  const FMT_INVALID: int := -4
  const FMT_MISSING_NUL: int := -5
  const FMT_MISMATCH: int := -6
  const FLEN_MISMATCH: int := -7
  const INCONSISTENT_SZ2: int := -8
  const INCONSISTENT_SZ3: int := -9
  const INCONSISTENT_SZ4: int := -10
  const UNSUPPORTED_FLAGS: int := -11

  /** Scan the format text: its end, the number of # in it, or what is wrong with it. */
  method ScanFormat(f: Fmt, img: bytes) returns (rc: int, dv: nat, octothorpes: nat)
    requires WfFmt(f) && |img| >= MINSIZE
    ensures rc == 0 <==> Holds(img, 8, f.text + [0])
    ensures rc == 0 ==> dv == 8 + |f.text| + 1 && octothorpes == |f.fxlens|
    ensures rc == FMT_INVALID <==> exists k | 8 <= k < |img| ::
              img[k] != 0 && img[k] !in FMT_CHARS && 0 !in img[8..k]
    ensures rc == FMT_MISSING_NUL <==> forall k | 8 <= k < |img| :: img[k] in FMT_CHARS
    ensures rc in {0, FMT_INVALID, FMT_MISSING_NUL, FMT_MISMATCH}
  {
    dv, octothorpes := 8, 0;
    var found := false;
    assert img[8..8] == [];
    while dv < |img| && !found
      invariant 8 <= dv <= |img|
      invariant forall k | 8 <= k < dv :: img[k] in FMT_CHARS
      invariant octothorpes == Octothorpes(img[8..dv])
      invariant found ==> dv < |img| && img[dv] == 0
      decreases |img| - dv, !found
    {
      if img[dv] != 0 {
        if img[dv] !in FMT_CHARS {
          assert 0 !in img[8..dv];
          BadCharMismatches(f, img, dv);
          return FMT_INVALID, dv, octothorpes;
        }
        OctothorpesSnoc(img[8..dv], img[dv]);
        assert img[8..dv + 1] == img[8..dv] + [img[dv]];
        octothorpes := octothorpes + if img[dv] == OCTOTHORPE then 1 else 0;
        dv := dv + 1;
      } else {
        found := true;
      }
    }
    if !found {
      BadCharMismatches(f, img, dv);
      return FMT_MISSING_NUL, dv, octothorpes;
    }
    assert img[8..dv + 1] == img[8..dv] + [0];
    NulEndsText(f, img, dv);
    if f.text != img[8..dv] {
      return FMT_MISMATCH, dv, octothorpes;
    }
    rc, dv := 0, dv + 1;
  }

  lemma {:induction false} OctothorpesSnoc(s: bytes, c: byte)
    ensures Octothorpes(s + [c]) == Octothorpes(s) + if c == OCTOTHORPE then 1 else 0
  {
    if s != [] {
      OctothorpesSnoc(s[1..], c);
      assert (s + [c])[1..] == s[1..] + [c];
    } else {
      assert (s + [c])[1..] == [];
    }
  }

  /** The map's format text at its place: characters of a format, then the NUL. */
  lemma TextStands(f: Fmt, img: bytes)
    requires WfFmt(f) && Holds(img, 8, f.text + [0])
    ensures 8 + |f.text| < |img| && img[8 + |f.text|] == 0
    ensures forall k | 8 <= k < 8 + |f.text| :: img[k] == f.text[k - 8] && img[k] in FMT_CHARS && img[k] != 0
    ensures img[8..8 + |f.text|] == f.text
  {
    var t := img[8..8 + |f.text| + 1];
    assert t == f.text + [0];
    assert forall k | 8 <= k < 8 + |f.text| + 1 :: img[k] == t[k - 8];
    assert forall k | 0 <= k < |f.text| :: f.text[k] in FMT_CHARS;
    assert 0 !in FMT_CHARS;
  }

  lemma NulEndsText(f: Fmt, img: bytes, nul: nat)
    requires WfFmt(f) && 8 <= nul < |img| && img[nul] == 0
    requires forall k | 8 <= k < nul :: img[k] in FMT_CHARS
    ensures Holds(img, 8, f.text + [0]) <==> img[8..nul] == f.text
  {
    if Holds(img, 8, f.text + [0]) {
      TextStands(f, img);
    }
    if img[8..nul] == f.text {
      assert img[8..nul + 1] == f.text + [0];
    }
  }

  lemma BadCharMismatches(f: Fmt, img: bytes, dv: nat)
    requires WfFmt(f) && 8 <= dv <= |img| && (dv < |img| ==> img[dv] != 0 && img[dv] !in FMT_CHARS)
    requires forall k | 8 <= k < dv :: img[k] in FMT_CHARS
    ensures !Holds(img, 8, f.text + [0])
  {
    if Holds(img, 8, f.text + [0]) {
      TextStands(f, img);
    }
  }

  /** Compare the lengths stored for the #s with those of the map. */
  method CompareFxlens(f: Fmt, img: bytes, dv0: nat, o: Order) returns (same: bool, dv: nat)
    requires WfFmt(f) && dv0 + 4 * |f.fxlens| <= |img|
    ensures same <==> Holds(img, dv0, FxBytes(f.fxlens, o.ImageBig()))
    ensures same ==> dv == dv0 + 4 * |f.fxlens|
  {
    hide GetU32, PutU32, Holds;
    dv := dv0;
    var k := 0;
    assert f.fxlens[0..] == f.fxlens;
    while k < |f.fxlens|
      invariant 0 <= k <= |f.fxlens| && dv == dv0 + 4 * k
      invariant Holds(img, dv0, FxBytes(f.fxlens, o.ImageBig())) <==>
                Holds(img, dv, FxBytes(f.fxlens[k..], o.ImageBig()))
    {
      var flen := ReadU32(img, dv, o.big, o.swap);
      assert f.fxlens[k..][1..] == f.fxlens[k + 1..];
      FirstFxlen(f.fxlens[k..], img, dv, o.ImageBig());
      if flen != f.fxlens[k] {
        return false, dv;
      }
      dv := dv + 4;
      k := k + 1;
    }
    NoFxlens(img, dv, o.ImageBig());
    same := true;
  }

  lemma FirstFxlen(fx: seq<nat>, img: bytes, dv: nat, big: bool)
    requires fx != [] && dv + 4 <= |img| && forall i | 0 <= i < |fx| :: fx[i] < TWO_31
    ensures Holds(img, dv, FxBytes(fx, big)) <==>
              GetU32(img[dv..dv + 4], big) == fx[0] && Holds(img, dv + 4, FxBytes(fx[1..], big))
  {
    hide GetU32, PutU32;
    U32Inverse(fx[0], img[dv..dv + 4], big);
    HoldsSplit(img, dv, PutU32(fx[0], big), FxBytes(fx[1..], big));
  }

  lemma NoFxlens(img: bytes, dv: nat, big: bool)
    requires dv <= |img|
    ensures Holds(img, dv, FxBytes([], big))
  {
  }

  /** tpl_find_data_start: past the format's NUL and the lengths of its #s. */
  method FindDataStart(f: Fmt, img: bytes) returns (dv: nat)
    requires WfFmt(f) && |img| >= MINSIZE && Holds(img, 8, f.text + [0])
    ensures dv == DataStart(f)
  {
    var octothorpes := 0;
    dv := 8;
    TextStands(f, img);
    assert img[8..8] == [];
    while img[dv] != 0
      invariant 8 <= dv <= 8 + |f.text| < |img| && octothorpes == Octothorpes(img[8..dv])
      decreases |img| - dv
    {
      OctothorpesSnoc(img[8..dv], img[dv]);
      assert img[8..dv + 1] == img[8..dv] + [img[dv]];
      if img[dv] == OCTOTHORPE {
        octothorpes := octothorpes + 1;
      }
      dv := dv + 1;
    }
    dv := dv + 1;
    dv := dv + octothorpes * 4;
  }
}
