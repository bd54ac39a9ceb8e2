/** The blacklisted-satellite codec of the GNSS adapter: lists of satellite ids, and six masks of 64
    bits in which each bit stands for one satellite of a constellation.
 */
module Blacklist {
  import opened Bits

  datatype SvType = Unknown | Gps | Sbas | Glonass | Qzss | Beidou | Galileo | Navic

  /** Satellite id 0 stands for all satellites of the constellation. */
  datatype Source = Source(constellation: SvType, svId: nat)

  datatype Config = Config(glo: uint64, bds: uint64, qzss: uint64, gal: uint64, sbas: uint64, navic: uint64)

  const ALL_BITS: uint64 := 0xFFFF_FFFF_FFFF_FFFF
  const GLO_INITIAL := 65
  const BDS_INITIAL := 201
  const QZSS_INITIAL := 193
  const GAL_INITIAL := 301
  const SBAS_INITIAL := 120
  const SBAS_LENGTH := 39
  const SBAS_INITIAL2 := 183
  const NAVIC_INITIAL := 401

  const CLEARED := Config(0, 0, 0, 0, 0, 0)

  predicate HasMask(t: SvType) {
    !t.Unknown? && !t.Gps?
  }

  function MaskOf(c: Config, t: SvType): uint64
    requires HasMask(t)
  {
    match t
    case Sbas => c.sbas
    case Glonass => c.glo
    case Qzss => c.qzss
    case Beidou => c.bds
    case Galileo => c.gal
    case Navic => c.navic
  }

  function WithMask(c: Config, t: SvType, m: uint64): Config
    requires HasMask(t)
  {
    match t
    case Sbas => c.(sbas := m)
    case Glonass => c.(glo := m)
    case Qzss => c.(qzss := m)
    case Beidou => c.(bds := m)
    case Galileo => c.(gal := m)
    case Navic => c.(navic := m)
  }

  function Initial(t: SvType): nat
    requires HasMask(t)
  {
    match t
    case Sbas => SBAS_INITIAL
    case Glonass => GLO_INITIAL
    case Qzss => QZSS_INITIAL
    case Beidou => BDS_INITIAL
    case Galileo => GAL_INITIAL
    case Navic => NAVIC_INITIAL
  }

  // ---------------------------------------------------------------- ids to masks

  /** What becomes of a mask when a bit is shifted past the width of a word, by 64 or more: C++ leaves it
      undefined, so nothing is known about it. */
  type Shift = (uint64, nat) -> uint64

  /** SBAS ids past the second range are shifted that far. */
  predicate IsDefined(s: Source) {
    s.constellation.Sbas? ==> s.svId < SBAS_INITIAL2 + 25 || s.svId >= SBAS_INITIAL2 + 64
  }

  predicate AllDefined(list: seq<Source>) {
    forall i :: 0 <= i < |list| ==> IsDefined(list[i])
  }

  function OrBit(m: uint64, k: nat): (r: uint64)
    requires k < 64
  {
    OrFits(m, k);
    Or(m, Power2(k))
  }

  lemma OrFits(m: uint64, k: nat)
    requires k < 64
    ensures Or(m, Power2(k)) < WORD
  {
    PowerOfWord();
    PowerGrows(k, 64);
    OrIsBelow(m, Power2(k), 64);
  }

  /** One entry of the list: the whole mask for id 0, one more bit for an id of the constellation's
      window, and nothing for any other id or constellation. */
  function AddSource(past: Shift, c: Config, s: Source): Config {
    var t := s.constellation;
    if !HasMask(t) then c
    else if s.svId == 0 then WithMask(c, t, ALL_BITS)
    else if t.Sbas? then
      if s.svId >= SBAS_INITIAL2 then
        if s.svId >= SBAS_INITIAL2 + 64 then c
        else if !IsDefined(s) then WithMask(c, t, past(c.sbas, s.svId + SBAS_LENGTH - SBAS_INITIAL2))
        else WithMask(c, t, OrBit(c.sbas, s.svId + SBAS_LENGTH - SBAS_INITIAL2))
      else if SBAS_INITIAL <= s.svId < SBAS_INITIAL + SBAS_LENGTH then
        WithMask(c, t, OrBit(c.sbas, s.svId - SBAS_INITIAL))
      else c
    else if s.svId < Initial(t) || s.svId >= Initial(t) + 64 then c
    else WithMask(c, t, OrBit(MaskOf(c, t), s.svId - Initial(t)))
  }

  function AddAll(past: Shift, c: Config, list: seq<Source>): Config {
    if list == [] then c else AddSource(past, AddAll(past, c, list[..|list|-1]), list[|list|-1])
  }

  /** The masks, and whether the list was empty or left some mask set. */
  function ToConfig(past: Shift, list: seq<Source>, c: Config): (bool, Config) {
    if list == [] then (true, CLEARED)
    else
      var r := AddAll(past, c, list);
      (r != CLEARED, r)
  }

  // ---------------------------------------------------------------- masks to ids

  function IdOfBit(bit: nat, initial: nat, t: SvType): nat {
    if t.Sbas? && bit >= SBAS_LENGTH then bit - SBAS_LENGTH + SBAS_INITIAL2 else bit + initial
  }

  function ListBits(mask: uint64, bit: nat, initial: nat, t: SvType): seq<Source> {
    if mask == 0 then []
    else
      (if mask % 2 == 1 then [Source(t, IdOfBit(bit, initial, t))] else []) + ListBits(mask / 2, bit + 1, initial, t)
  }

  function MaskToList(mask: uint64, initial: nat, t: SvType): seq<Source> {
    if mask == ALL_BITS then [Source(t, 0)] else ListBits(mask, 0, initial, t)
  }

  function SbasLow(m: uint64): uint64 {
    ShiftRight(ShiftLeft(m, 64 - SBAS_LENGTH), 64 - SBAS_LENGTH)
  }

  function SbasHigh(m: uint64): uint64 {
    ShiftRight(m, SBAS_LENGTH)
  }

  function OfType(c: Config, t: SvType): seq<Source>
    requires HasMask(t)
  {
    var m := MaskOf(c, t);
    if m == 0 then []
    else if t.Sbas? then MaskToList(SbasLow(m), SBAS_INITIAL, t) + MaskToList(SbasHigh(m), SBAS_INITIAL2, t)
    else MaskToList(m, Initial(t), t)
  }

  function FromConfig(c: Config): seq<Source> {
    OfType(c, Beidou) + OfType(c, Galileo) + OfType(c, Glonass) + OfType(c, Qzss) + OfType(c, Sbas) + OfType(c, Navic)
  }

  // ---------------------------------------------------------------- what either form means

  /** The satellites a constellation's mask has a bit for. */
  predicate InWindow(t: SvType, sv: nat) {
    && HasMask(t)
    && (if t.Sbas? then SBAS_INITIAL <= sv < SBAS_INITIAL + SBAS_LENGTH || SBAS_INITIAL2 <= sv < SBAS_INITIAL2 + 25
        else Initial(t) <= sv < Initial(t) + 64)
  }

  function BitOfSv(t: SvType, sv: nat): (k: nat)
    requires InWindow(t, sv)
    ensures k < 64
  {
    if t.Sbas? && sv >= SBAS_INITIAL2 then sv - SBAS_INITIAL2 + SBAS_LENGTH else sv - Initial(t)
  }

  /** The numbering of the satellites in each constellation, with the bit that the modem knows each under. */
  lemma SatellitesAreNumbered(t: SvType, sv: nat, k: nat)
    ensures InWindow(t, sv) && BitOfSv(t, sv) == k <==>
            || (t.Glonass? && k < 64 && sv == 65 + k)
            || (t.Qzss? && k < 64 && sv == 193 + k)
            || (t.Beidou? && k < 64 && sv == 201 + k)
            || (t.Galileo? && k < 64 && sv == 301 + k)
            || (t.Navic? && k < 64 && sv == 401 + k)
            || (t.Sbas? && k < 39 && sv == 120 + k)
            || (t.Sbas? && 39 <= k < 64 && sv == 183 + k - 39)
  {
  }

  /** Does the list blacklist this satellite? */
  predicate Listed(list: seq<Source>, t: SvType, sv: nat) {
    InWindow(t, sv) && (Source(t, sv) in list || Source(t, 0) in list)
  }

  /** Do the masks? */
  predicate Masked(c: Config, t: SvType, sv: nat) {
    InWindow(t, sv) && Bit(MaskOf(c, t), BitOfSv(t, sv))
  }

  // ---------------------------------------------------------------- ids to masks keeps the meaning

  lemma BitOfAll(k: nat)
    requires k < 64
    ensures Bit(ALL_BITS, k)
  {
    PowerOfWord();
    LowBitsOfAll(64, k);
  }

  lemma {:induction false} LowBitsOfAll(n: nat, k: nat)
    requires k < n
    ensures Bit(Power2(n) - 1, k)
  {
    if k > 0 {
      assert (Power2(n) - 1) / 2 == Power2(n - 1) - 1;
      LowBitsOfAll(n - 1, k - 1);
    }
  }

  lemma BitOfOrBit(m: uint64, j: nat, k: nat)
    requires j < 64
    ensures Bit(OrBit(m, j), k) <==> Bit(m, k) || j == k
  {
    BitOfOr(m, Power2(j), k);
    BitOfPower(j, k);
  }

  /** One entry sets the whole mask for id 0, the bit of a satellite in the window, or nothing. */
  lemma AddSourceSets(past: Shift, c: Config, s: Source)
    requires IsDefined(s)
    ensures AddSource(past, c, s) ==
            var t := s.constellation;
            if HasMask(t) && s.svId == 0 then WithMask(c, t, ALL_BITS)
            else if InWindow(t, s.svId) then WithMask(c, t, OrBit(MaskOf(c, t), BitOfSv(t, s.svId)))
            else c
  {
  }

  lemma SvOfBit(t: SvType, a: nat, b: nat)
    requires InWindow(t, a) && InWindow(t, b) && BitOfSv(t, a) == BitOfSv(t, b)
    ensures a == b
  {
  }

  /** One entry masks exactly the satellites it lists. */
  lemma AddSourceMasks(past: Shift, c: Config, s: Source, t: SvType, sv: nat)
    requires (t.Sbas? ==> IsDefined(s)) && InWindow(t, sv)
    ensures Masked(AddSource(past, c, s), t, sv) <==> Masked(c, t, sv) || s == Source(t, sv) || s == Source(t, 0)
  {
    var u := s.constellation;
    if IsDefined(s) {
      AddSourceSets(past, c, s);
    }
    if u == t && s.svId == 0 {
      BitOfAll(BitOfSv(t, sv));
    } else if u == t && InWindow(t, s.svId) {
      BitOfOrBit(MaskOf(c, t), BitOfSv(t, s.svId), BitOfSv(t, sv));
      if BitOfSv(t, s.svId) == BitOfSv(t, sv) {
        SvOfBit(t, s.svId, sv);
      }
    }
  }

  lemma {:induction false} AddAllMasks(past: Shift, c: Config, list: seq<Source>, t: SvType, sv: nat)
    requires (t.Sbas? ==> AllDefined(list)) && InWindow(t, sv)
    ensures Masked(AddAll(past, c, list), t, sv) <==> Masked(c, t, sv) || Listed(list, t, sv)
  {
    if list != [] {
      var n := |list| - 1;
      AddAllMasks(past, c, list[..n], t, sv);
      AddSourceMasks(past, AddAll(past, c, list[..n]), list[n], t, sv);
      assert list == list[..n] + [list[n]];
    }
  }

  lemma ClearedMasksNothing(t: SvType, sv: nat)
    ensures !Masked(CLEARED, t, sv)
  {
    if InWindow(t, sv) {
      BitOfZero(BitOfSv(t, sv));
    }
  }

  /** On cleared masks, a list of ids blacklists through its masks exactly the satellites it lists: in every
      constellation but SBAS whatever the list holds, and in SBAS if no SBAS id is shifted past the word. */
  lemma ListsBecomeMasks(past: Shift, list: seq<Source>, t: SvType, sv: nat)
    requires t.Sbas? ==> AllDefined(list)
    ensures Masked(ToConfig(past, list, CLEARED).1, t, sv) <==> Listed(list, t, sv)
  {
    ClearedMasksNothing(t, sv);
    if InWindow(t, sv) {
      AddAllMasks(past, CLEARED, list, t, sv);
    }
  }

  // ---------------------------------------------------------------- masks to ids keeps the meaning

  /** The loop over the bits lists one id for each bit set, and no other. */
  lemma {:induction false} ListBitsHas(mask: uint64, bit: nat, initial: nat, t: SvType, s: Source)
    requires t.Sbas? ==> forall k: nat :: Bit(mask, k) ==> bit + k < SBAS_LENGTH
    ensures s in ListBits(mask, bit, initial, t) <==>
            s.constellation == t && s.svId >= bit + initial && Bit(mask, s.svId - bit - initial)
  {
    if mask == 0 {
      if s.svId >= bit + initial {
        BitOfZero(s.svId - bit - initial);
      }
    } else {
      forall k: nat | t.Sbas? && Bit(mask / 2, k) ensures bit + 1 + k < SBAS_LENGTH {
        assert Bit(mask, k + 1);
      }
      ListBitsHas(mask / 2, bit + 1, initial, t, s);
      assert t.Sbas? && mask % 2 == 1 ==> Bit(mask, 0);
    }
  }

  lemma MaskToListHas(mask: uint64, initial: nat, t: SvType, sv: nat)
    requires initial > 0 && initial <= sv < initial + 64
    requires t.Sbas? ==> forall k: nat :: Bit(mask, k) ==> k < SBAS_LENGTH
    ensures (Source(t, sv) in MaskToList(mask, initial, t) || Source(t, 0) in MaskToList(mask, initial, t)) <==>
            Bit(mask, sv - initial)
  {
    if mask == ALL_BITS {
      BitOfAll(sv - initial);
    } else {
      ListBitsHas(mask, 0, initial, t, Source(t, sv));
      ListBitsHas(mask, 0, initial, t, Source(t, 0));
    }
  }

  /** What a mask lists belongs to its constellation and stays inside 64 ids from the initial one. */
  lemma MaskToListBounds(mask: uint64, initial: nat, t: SvType, s: Source)
    requires t.Sbas? ==> forall k: nat :: Bit(mask, k) ==> k < SBAS_LENGTH
    requires s in MaskToList(mask, initial, t)
    ensures s.constellation == t
    ensures s.svId == 0 || (initial <= s.svId < initial + 64 && Bit(mask, s.svId - initial))
  {
    if mask != ALL_BITS {
      ListBitsHas(mask, 0, initial, t, s);
      PowerOfWord();
      BitsAreBelow(mask, 64, s.svId - initial);
    }
  }

  /** The two halves of the SBAS mask: bits 0 to 38, and the 25 bits above moved down. */
  lemma SbasHalves(m: uint64, k: nat)
    ensures Bit(SbasLow(m), k) <==> k < SBAS_LENGTH && Bit(m, k)
    ensures Bit(SbasHigh(m), k) <==> Bit(m, SBAS_LENGTH + k)
    ensures Bit(SbasHigh(m), k) ==> k < 25
  {
    var shift := 64 - SBAS_LENGTH;
    BitOfShiftRight(ShiftLeft(m, shift), shift, k);
    BitOfShiftLeft(m, shift, shift + k);
    BitOfShiftRight(m, SBAS_LENGTH, k);
    if Bit(m, SBAS_LENGTH + k) {
      PowerOfWord();
      BitsAreBelow(m, 64, SBAS_LENGTH + k);
    }
  }

  lemma HalvesAreShort(m: uint64)
    ensures forall k: nat :: Bit(SbasLow(m), k) ==> k < SBAS_LENGTH
    ensures forall k: nat :: Bit(SbasHigh(m), k) ==> k < 25
  {
    forall k: nat {
      SbasHalves(m, k);
    }
  }

  /** SBAS is listed in two parts, each from its own half of the mask. */
  lemma SbasLists(c: Config, sv: nat)
    requires c.sbas != 0 && InWindow(Sbas, sv)
    ensures Listed(OfType(c, Sbas), Sbas, sv) <==> Masked(c, Sbas, sv)
  {
    var m := c.sbas;
    HalvesAreShort(m);
    NoSbasShorthand(m);
    if sv < SBAS_INITIAL2 {
      MaskToListHas(SbasLow(m), SBAS_INITIAL, Sbas, sv);
      SbasHalves(m, sv - SBAS_INITIAL);
      if Source(Sbas, sv) in MaskToList(SbasHigh(m), SBAS_INITIAL2, Sbas) {
        MaskToListBounds(SbasHigh(m), SBAS_INITIAL2, Sbas, Source(Sbas, sv));
      }
    } else {
      MaskToListHas(SbasHigh(m), SBAS_INITIAL2, Sbas, sv);
      SbasHalves(m, sv - SBAS_INITIAL2);
      if Source(Sbas, sv) in MaskToList(SbasLow(m), SBAS_INITIAL, Sbas) {
        MaskToListBounds(SbasLow(m), SBAS_INITIAL, Sbas, Source(Sbas, sv));
      }
    }
  }

  /** Neither half can be the all-ones mask, so SBAS never comes back as id 0. */
  lemma NoSbasShorthand(m: uint64)
    ensures Source(Sbas, 0) !in MaskToList(SbasLow(m), SBAS_INITIAL, Sbas)
    ensures Source(Sbas, 0) !in MaskToList(SbasHigh(m), SBAS_INITIAL2, Sbas)
  {
    HalvesAreShort(m);
    BitOfAll(63);
    ListBitsHas(SbasLow(m), 0, SBAS_INITIAL, Sbas, Source(Sbas, 0));
    ListBitsHas(SbasHigh(m), 0, SBAS_INITIAL2, Sbas, Source(Sbas, 0));
  }

  lemma OfTypeLists(c: Config, t: SvType, sv: nat)
    requires HasMask(t)
    ensures Listed(OfType(c, t), t, sv) <==> Masked(c, t, sv)
  {
    if InWindow(t, sv) {
      if MaskOf(c, t) == 0 {
        BitOfZero(BitOfSv(t, sv));
      } else if t.Sbas? {
        SbasLists(c, sv);
      } else {
        MaskToListHas(MaskOf(c, t), Initial(t), t, sv);
      }
    }
  }

  lemma OfTypeIsOfType(c: Config, t: SvType, s: Source)
    requires HasMask(t) && s in OfType(c, t)
    ensures s.constellation == t && IsDefined(s)
  {
    var m := MaskOf(c, t);
    if t.Sbas? {
      HalvesAreShort(m);
      if s in MaskToList(SbasLow(m), SBAS_INITIAL, t) {
        MaskToListBounds(SbasLow(m), SBAS_INITIAL, t, s);
      } else {
        MaskToListBounds(SbasHigh(m), SBAS_INITIAL2, t, s);
      }
    } else {
      MaskToListBounds(m, Initial(t), t, s);
    }
  }

  lemma FromConfigHas(c: Config, s: Source)
    ensures s in FromConfig(c) <==> HasMask(s.constellation) && s in OfType(c, s.constellation)
    ensures s in FromConfig(c) ==> IsDefined(s)
  {
    if s in FromConfig(c) {
      var t := if s in OfType(c, Beidou) then Beidou else if s in OfType(c, Galileo) then Galileo
        else if s in OfType(c, Glonass) then Glonass else if s in OfType(c, Qzss) then Qzss
        else if s in OfType(c, Sbas) then Sbas else Navic;
      OfTypeIsOfType(c, t, s);
    }
  }

  lemma FromConfigIsDefined(c: Config)
    ensures AllDefined(FromConfig(c))
  {
    forall i | 0 <= i < |FromConfig(c)| ensures IsDefined(FromConfig(c)[i]) {
      FromConfigHas(c, FromConfig(c)[i]);
    }
  }

  /** The masks become a list that blacklists exactly the same satellites. */
  lemma MasksBecomeLists(c: Config, t: SvType, sv: nat)
    ensures Listed(FromConfig(c), t, sv) <==> Masked(c, t, sv)
  {
    if InWindow(t, sv) {
      OfTypeLists(c, t, sv);
      FromConfigHas(c, Source(t, sv));
      FromConfigHas(c, Source(t, 0));
    }
  }

  // ---------------------------------------------------------------- round trips

  lemma SvForBit(t: SvType, k: nat) returns (sv: nat)
    requires HasMask(t) && k < 64
    ensures InWindow(t, sv) && BitOfSv(t, sv) == k
  {
    sv := if t.Sbas? && k >= SBAS_LENGTH then SBAS_INITIAL2 + (k - SBAS_LENGTH) else Initial(t) + k;
  }

  /** Masks are told apart by the satellites they mask. */
  lemma SameMeaningSameMask(c: Config, d: Config, t: SvType)
    requires HasMask(t)
    requires forall sv :: Masked(c, t, sv) <==> Masked(d, t, sv)
    ensures MaskOf(c, t) == MaskOf(d, t)
  {
    PowerOfWord();
    forall k | 0 <= k < 64 ensures Bit(MaskOf(c, t), k) <==> Bit(MaskOf(d, t), k) {
      var sv := SvForBit(t, k);
      assert Masked(c, t, sv) <==> Masked(d, t, sv);
    }
    SameBits(MaskOf(c, t), MaskOf(d, t), 64);
  }

  lemma SameMeaningSameConfig(c: Config, d: Config)
    requires forall t, sv :: Masked(c, t, sv) <==> Masked(d, t, sv)
    ensures c == d
  {
    SameMeaningSameMask(c, d, Sbas);
    SameMeaningSameMask(c, d, Glonass);
    SameMeaningSameMask(c, d, Qzss);
    SameMeaningSameMask(c, d, Beidou);
    SameMeaningSameMask(c, d, Galileo);
    SameMeaningSameMask(c, d, Navic);
  }

  /** For every six masks, the list cached for a modem restart injects the same six masks again. */
  lemma MasksSurviveRestart(past: Shift, c: Config)
    ensures AllDefined(FromConfig(c))
    ensures ToConfig(past, FromConfig(c), CLEARED) == (true, c)
  {
    var list := FromConfig(c);
    FromConfigIsDefined(c);
    var (ok, d) := ToConfig(past, list, CLEARED);
    forall t, sv ensures Masked(d, t, sv) <==> Masked(c, t, sv) {
      ListsBecomeMasks(past, list, t, sv);
      MasksBecomeLists(c, t, sv);
    }
    SameMeaningSameConfig(c, d);
    if list != [] {
      FromConfigHas(c, list[0]);
      assert MaskOf(c, list[0].constellation) != 0;
    }
  }

  /** For every list, going through the masks and back blacklists exactly the same satellites. */
  lemma ListsKeepTheirMeaning(past: Shift, list: seq<Source>, t: SvType, sv: nat)
    requires t.Sbas? ==> AllDefined(list)
    ensures Listed(FromConfig(ToConfig(past, list, CLEARED).1), t, sv) <==> Listed(list, t, sv)
  {
    ListsBecomeMasks(past, list, t, sv);
    MasksBecomeLists(ToConfig(past, list, CLEARED).1, t, sv);
  }

  /** The conversion succeeds for an empty list and for a list that names a satellite outside SBAS; and unless an
      SBAS id is shifted past the word, it fails on every list in which no entry names a satellite. */
  lemma ConversionSucceedsExactly(past: Shift, list: seq<Source>)
    ensures list == [] || (exists t: SvType, sv :: !t.Sbas? && Listed(list, t, sv)) ==> ToConfig(past, list, CLEARED).0
    ensures AllDefined(list) ==>
              (ToConfig(past, list, CLEARED).0 <==> list == [] || exists t, sv :: Listed(list, t, sv))
  {
    var (ok, d) := ToConfig(past, list, CLEARED);
    forall t: SvType, sv | (t.Sbas? ==> AllDefined(list)) && Listed(list, t, sv) ensures ok {
      ListsBecomeMasks(past, list, t, sv);
      ClearedMasksNothing(t, sv);
    }
    if AllDefined(list) && ok && list != [] {
      if forall t, sv :: !Listed(list, t, sv) {
        forall t, sv ensures Masked(d, t, sv) <==> Masked(CLEARED, t, sv) {
          ListsBecomeMasks(past, list, t, sv);
          ClearedMasksNothing(t, sv);
        }
        SameMeaningSameConfig(d, CLEARED);
      }
    }
  }

  // ---------------------------------------------------------------- the loops of the codec

  /** Walks the set bits of a mask from the lowest, appending their ids to the list. */
  method ConvertGnssSvIdMaskToList(mask: uint64, list: seq<Source>, initial: nat, t: SvType) returns (out: seq<Source>)
    ensures out == list + MaskToList(mask, initial, t)
  {
    out := list;
    if mask == ALL_BITS {
      return out + [Source(t, 0)];
    }
    var left: uint64, bitNumber: nat := mask, 0;
    while left > 0
      invariant out + ListBits(left, bitNumber, initial, t) == list + ListBits(mask, 0, initial, t)
    {
      if left % 2 == 1 {
        var svId := bitNumber + initial;
        if t.Sbas? && bitNumber >= SBAS_LENGTH {
          svId := bitNumber - SBAS_LENGTH + SBAS_INITIAL2;
        }
        out := out + [Source(t, svId)];
      }
      bitNumber := bitNumber + 1;
      left := left / 2;
    }
  }

  /** One constellation of the conversion: nothing for an empty mask, two passes for SBAS. */
  method AppendConstellation(c: Config, t: SvType, list: seq<Source>) returns (out: seq<Source>)
    requires HasMask(t)
    ensures out == list + OfType(c, t)
  {
    out := list;
    var mask := MaskOf(c, t);
    if mask != 0 {
      if t.Sbas? {
        var low := ShiftRight(ShiftLeft(mask, 64 - SBAS_LENGTH), 64 - SBAS_LENGTH);
        out := ConvertGnssSvIdMaskToList(low, out, SBAS_INITIAL, t);
        out := ConvertGnssSvIdMaskToList(ShiftRight(mask, SBAS_LENGTH), out, SBAS_INITIAL2, t);
      } else {
        out := ConvertGnssSvIdMaskToList(mask, out, Initial(t), t);
      }
    }
  }

  method ConvertFromGnssSvIdConfig(c: Config, list: seq<Source>) returns (out: seq<Source>)
    ensures out == list + FromConfig(c)
  {
    out := AppendConstellation(c, Beidou, list);
    out := AppendConstellation(c, Galileo, out);
    out := AppendConstellation(c, Glonass, out);
    out := AppendConstellation(c, Qzss, out);
    out := AppendConstellation(c, Sbas, out);
    out := AppendConstellation(c, Navic, out);
    AppendedInOrder(list, OfType(c, Beidou), OfType(c, Galileo), OfType(c, Glonass),
                    OfType(c, Qzss), OfType(c, Sbas), OfType(c, Navic));
  }

  lemma AppendedInOrder<T>(list: seq<T>, a: seq<T>, b: seq<T>, c: seq<T>, d: seq<T>, e: seq<T>, f: seq<T>)
    ensures list + a + b + c + d + e + f == list + (a + b + c + d + e + f)
  {
    assert list + a + b + c == list + (a + b + c);
    assert list + (a + b + c) + d + e == list + (a + b + c + d + e);
  }

  method ConvertToGnssSvIdConfig(past: Shift, list: seq<Source>, config: Config) returns (ok: bool, out: Config)
    ensures (ok, out) == ToConfig(past, list, config)
  {
    if |list| == 0 {
      return true, CLEARED;
    }
    out := config;
    for i := 0 to |list|
      invariant out == AddAll(past, config, list[..i])
    {
      assert list[..i + 1][..i] == list[..i];
      out := AddSource(past, out, list[i]);
    }
    assert list[..|list|] == list;
    ok := out.glo != 0 || out.bds != 0 || out.gal != 0 || out.qzss != 0 || out.sbas != 0 || out.navic != 0;
  }
}

/** Bits of natural numbers, least significant first, and the mask operations the codec uses. */
module Bits {

  function Power2(k: nat): (p: nat)
    ensures p > 0
  {
    if k == 0 then 1 else 2 * Power2(k - 1)
  }

  predicate Bit(m: nat, k: nat) {
    if k == 0 then m % 2 == 1 else Bit(m / 2, k - 1)
  }

  /** Bitwise or. */
  function Or(a: nat, b: nat): nat
    decreases a + b
  {
    if a == 0 && b == 0 then 0
    else 2 * Or(a / 2, b / 2) + (if a % 2 == 1 || b % 2 == 1 then 1 else 0)
  }

  /** Unsigned words of 64 bits, and their logical shifts. */
  const WORD := 0x1_0000_0000_0000_0000

  type uint64 = m: nat | m < 0x1_0000_0000_0000_0000

  function ShiftLeft(m: uint64, k: nat): uint64
    decreases k
  {
    if k == 0 then m else ShiftLeft(2 * m % WORD, k - 1)
  }

  function ShiftRight(m: uint64, k: nat): uint64 {
    if k == 0 then m else ShiftRight(m / 2, k - 1)
  }

  lemma {:induction false} PowerOfSum(j: nat, k: nat)
    ensures Power2(j + k) == Power2(j) * Power2(k)
  {
    if j > 0 {
      PowerOfSum(j - 1, k);
      assert Power2(j) * Power2(k) == 2 * (Power2(j - 1) * Power2(k));
    }
  }

  lemma PowerOfDouble(k: nat, p: nat)
    requires Power2(k) == p
    ensures Power2(2 * k) == p * p
  {
    PowerOfSum(k, k);
  }

  lemma PowerOfWord()
    ensures Power2(64) == WORD
  {
    var k := 2;
    PowerOfDouble(k, 4);
    PowerOfDouble(2 * k, 0x10);
    PowerOfDouble(4 * k, 0x100);
    PowerOfDouble(8 * k, 0x1_0000);
    PowerOfDouble(16 * k, 0x1_0000_0000);
  }

  lemma {:induction false} BitOfZero(k: nat)
    ensures !Bit(0, k)
  {
    if k > 0 {
      BitOfZero(k - 1);
    }
  }

  lemma {:induction false} BitOfOr(a: nat, b: nat, k: nat)
    ensures Bit(Or(a, b), k) <==> Bit(a, k) || Bit(b, k)
    decreases a + b
  {
    if a == 0 && b == 0 {
      BitOfZero(k);
    } else if k > 0 {
      BitOfOr(a / 2, b / 2, k - 1);
      assert Or(a, b) / 2 == Or(a / 2, b / 2);
    }
  }

  lemma {:induction false} BitOfPower(j: nat, k: nat)
    ensures Bit(Power2(j), k) <==> j == k
  {
    if j > 0 && k > 0 {
      BitOfPower(j - 1, k - 1);
      assert Power2(j) / 2 == Power2(j - 1);
    } else if j == 0 && k > 0 {
      BitOfZero(k - 1);
    }
  }

  lemma {:induction false} BitOfShiftRight(m: uint64, n: nat, k: nat)
    ensures Bit(ShiftRight(m, n), k) <==> Bit(m, n + k)
  {
    if n > 0 {
      BitOfShiftRight(m / 2, n - 1, k);
    }
  }

  /** Doubling a word drops its top bit and moves the others up. */
  lemma {:induction false} BitOfDouble(m: nat, width: nat, k: nat)
    requires m < Power2(width) && width > 0
    ensures Bit(2 * m % Power2(width), k) <==> 0 < k < width && Bit(m, k - 1)
  {
    var p := Power2(width - 1);
    var d := 2 * m % (2 * p);
    assert d == 2 * (m % p) by { DoubleMod(m, p); }
    if k > 0 {
      assert d / 2 == m % p;
      LowBits(m, width - 1, k - 1);
    }
  }

  lemma DoubleMod(m: nat, p: nat)
    requires p > 0
    ensures 2 * m % (2 * p) == 2 * (m % p)
  {
    var q, r := m / p, m % p;
    assert m == q * p + r;
    assert 2 * m == q * (2 * p) + 2 * r;
    ModUnique(2 * m, 2 * p, q, 2 * r);
  }

  lemma MultipleIsFar(d: int, n: int)
    requires n > 0
    ensures d > 0 ==> d * n >= n
    ensures d < 0 ==> d * n <= -n
  {
  }

  lemma ModUnique(a: nat, n: nat, q: nat, r: nat)
    requires n > 0 && r < n && a == q * n + r
    ensures a % n == r && a / n == q
  {
    var d := a / n - q;
    assert a == (a / n) * n + a % n;
    assert d * n == r - a % n;
    MultipleIsFar(d, n);
  }

  /** The remainder by a power of two keeps the low bits. */
  lemma {:induction false} LowBits(m: nat, n: nat, k: nat)
    ensures Bit(m % Power2(n), k) <==> k < n && Bit(m, k)
    decreases n
  {
    if n == 0 {
      assert m % 1 == 0;
      BitOfZero(k);
    } else {
      var p := Power2(n - 1);
      HalfMod(m, p);
      if k > 0 {
        LowBits(m / 2, n - 1, k - 1);
      }
    }
  }

  lemma HalfMod(m: nat, p: nat)
    requires p > 0
    ensures m % (2 * p) == 2 * (m / 2 % p) + m % 2
  {
    var h := m / 2;
    var q, r := h / p, h % p;
    assert h == q * p + r;
    assert m == q * (2 * p) + (2 * r + m % 2);
    ModUnique(m, 2 * p, q, 2 * r + m % 2);
  }

  /** Words are told apart by their bits. */
  lemma {:induction false} SameBits(a: nat, b: nat, width: nat)
    requires a < Power2(width) && b < Power2(width)
    requires forall k :: 0 <= k < width ==> (Bit(a, k) <==> Bit(b, k))
    ensures a == b
  {
    if width > 0 {
      assert Bit(a, 0) <==> Bit(b, 0);
      forall k | 0 <= k < width - 1 ensures Bit(a / 2, k) <==> Bit(b / 2, k) {
        assert Bit(a, k + 1) <==> Bit(b, k + 1);
      }
      SameBits(a / 2, b / 2, width - 1);
    }
  }

  lemma {:induction false} BitsAreBelow(m: nat, width: nat, k: nat)
    requires m < Power2(width) && Bit(m, k)
    ensures k < width
  {
    if width == 0 {
      BitOfZero(k);
    } else if k > 0 {
      BitsAreBelow(m / 2, width - 1, k - 1);
    }
  }

  lemma {:induction false} OrIsBelow(a: nat, b: nat, width: nat)
    requires a < Power2(width) && b < Power2(width)
    ensures Or(a, b) < Power2(width)
  {
    if width > 0 && !(a == 0 && b == 0) {
      OrIsBelow(a / 2, b / 2, width - 1);
    }
  }

  lemma {:induction false} PowerGrows(j: nat, k: nat)
    requires j < k
    ensures Power2(j) < Power2(k)
  {
    if j < k - 1 {
      PowerGrows(j, k - 1);
    }
  }

  lemma {:induction false} BitOfShiftLeft(m: uint64, n: nat, k: nat)
    ensures Bit(ShiftLeft(m, n), k) <==> n <= k < 64 && Bit(m, k - n)
    decreases n
  {
    PowerOfWord();
    if n > 0 {
      BitOfShiftLeft(2 * m % WORD, n - 1, k);
      if n - 1 <= k < 64 {
        BitOfDouble(m, 64, k - (n - 1));
      }
    } else if Bit(m, k) {
      BitsAreBelow(m, 64, k);
    }
  }
}
