/** The constants `convert_omas.py` uses to recognise keys of the flat
    OMAS schema: the denylist of `prune` with its `drop_key` test, the
    wrapper entry, and the one entry `arbitrary_fixes` overrides; and the
    fact that the overridden entry survives pruning. */
module OmasKeys {
  import opened Strings

  /** Substrings that get a key dropped (`DROP_KEYS_CONTAINING`). */
  const DenyList: seq<string> := [
    "b_field_parallel",
    "collisions_",
    "dr_minor_norm",
    "energy_",
    "error",
    "fluxes_moments",
    "fluxes_norm_particle",
    "growth_rate_tolerance",
    "ids_properties",
    "moments_norm_gyrocenter",
    "moments_norm_particle",
    "momentum_tor",
    "perturbed_norm",
    "perturbed_parity",
    "perturbed_weight",
    "poloidal_angle",
    "shape_coefficients",
    "time_norm"
  ]

  /** The top-level wrapper entry that read_schema deletes. */
  const Wrapper: string := "gyrokinetics"

  /** The one entry whose `data_type` arbitrary_fixes overrides. */
  const FixKey: string := "gyrokinetics.wavevector[:].poloidal_turns"
  const FixedDataType: string := "FLT_0D"

  /** `drop_key`: some denylisted entry occurs in the key, at some
      position (case-sensitive). */
  predicate Dropped(key: string): (r: bool)
    ensures r <==> exists i, p :: 0 <= i < |DenyList| && OccursAt(key, DenyList[i], p)
  {
    ContainsIffAll(key, DenyList);
    exists i :: 0 <= i < |DenyList| && Contains(key, DenyList[i])
  }

  /** A key that is dropped stays dropped whatever text surrounds it. */
  lemma DroppedExtend(a: string, key: string, b: string)
    requires Dropped(key)
    ensures Dropped(a + key + b)
  {
    var i :| 0 <= i < |DenyList| && Contains(key, DenyList[i]);
    ContainsWithin(a, key, b, DenyList[i]);
  }

  /** The fixed key as its three dot-separated parts. */
  lemma FixKeyParts()
    ensures FixKey == "gyrokinetics" + ['.'] + ("wavevector[:]" + ['.'] + "poloidal_turns")
  {
  }

  /** A dot-free string absent from each part of the fixed key is absent
      from the key. */
  lemma AbsentFromParts(bad: string)
    requires '.' !in bad
    requires !Contains("gyrokinetics", bad)
    requires !Contains("wavevector[:]", bad)
    requires !Contains("poloidal_turns", bad)
    ensures !Contains(FixKey, bad)
  {
    JoinAbsent("wavevector[:]", '.', "poloidal_turns", bad);
    JoinAbsent("gyrokinetics", '.', "wavevector[:]" + ['.'] + "poloidal_turns", bad);
    FixKeyParts();
  }

  /** `bad` has no dot and misses a character of each part of the fixed key. */
  lemma AbsentFromFixKey(bad: string, cg: char, cw: char, cp: char)
    requires '.' !in bad
    requires cg in bad && cg !in "gyrokinetics"
    requires cw in bad && cw !in "wavevector[:]"
    requires cp in bad && cp !in "poloidal_turns"
    ensures !Contains(FixKey, bad)
  {
    CharAbsent("gyrokinetics", bad, cg);
    CharAbsent("wavevector[:]", bad, cw);
    CharAbsent("poloidal_turns", bad, cp);
    AbsentFromParts(bad);
  }

  /** A string split by a character it lacks must fit on one side of it;
      so it is absent when each side lacks one of its characters. */
  lemma AbsentAcross(left: string, pivot: char, right: string, bad: string, cl: char, cr: char)
    requires pivot !in bad
    requires cl in bad && cl !in left
    requires cr in bad && cr !in right
    ensures !Contains(left + [pivot] + right, bad)
  {
    CharAbsent(left, bad, cl);
    CharAbsent(right, bad, cr);
    JoinAbsent(left, pivot, right, bad);
  }

  /** The first two parts of the fixed key, split at a `k` and at a `c`,
      and the letters each side lacks. */
  lemma HeadPartsSplit()
    ensures "gyrokinetics" == "gyro" + ['k'] + "inetics"
    ensures "wavevector[:]" == "waveve" + ['c'] + "tor[:]"
    ensures 'e' !in "gyro" && 'r' !in "inetics"
    ensures 'r' !in "waveve" && 'e' !in "tor[:]"
  {
  }

  /** A string holding an `e` and an `r` but no `k` and no `c` is absent
      from the first two parts of the fixed key. */
  lemma HeadPartsLack(bad: string)
    requires 'e' in bad && 'r' in bad && 'k' !in bad && 'c' !in bad
    ensures !Contains("gyrokinetics", bad) && !Contains("wavevector[:]", bad)
  {
    HeadPartsSplit();
    AbsentAcross("gyro", 'k', "inetics", bad, 'e', 'r');
    AbsentAcross("waveve", 'c', "tor[:]", bad, 'r', 'e');
  }

  /** A string holding an `e` is absent from "poloidal_turns". */
  lemma AbsentFromTurns(bad: string)
    requires 'e' in bad
    ensures !Contains("poloidal_turns", bad)
  {
    CharAbsent("poloidal_turns", bad, 'e');
  }

  /** "error" is absent from the fixed key; stated for any string with the
      letters that matter, so that no literal is unfolded. */
  lemma ErrorAbsentFromFixKey(bad: string)
    requires 'e' in bad && 'r' in bad
    requires '.' !in bad && 'k' !in bad && 'c' !in bad
    ensures !Contains(FixKey, bad)
  {
    HeadPartsLack(bad);
    AbsentFromTurns(bad);
    AbsentFromParts(bad);
  }

  /** The letters b, f, h and m occur in no part of the fixed key. */
  lemma PartsLackLetter(c: char)
    requires c == 'b' || c == 'f' || c == 'h' || c == 'm'
    ensures c !in "gyrokinetics" && c !in "wavevector[:]" && c !in "poloidal_turns"
  {
  }

  /** No single denylisted string occurs in the fixed key; one lemma per
      entry keeps each proof small. */
  lemma EntryAbsent0(bad: string)
    requires bad == DenyList[0]
    ensures !Contains(FixKey, bad)
  {
    PartsLackLetter('b');
    AbsentFromFixKey(bad, 'b', 'b', 'b');
  }

  lemma EntryAbsent1(bad: string)
    requires bad == DenyList[1]
    ensures !Contains(FixKey, bad)
  {
    AbsentFromFixKey(bad, 'l', 'l', 'c');
  }

  lemma EntryAbsent2(bad: string)
    requires bad == DenyList[2]
    ensures !Contains(FixKey, bad)
  {
    PartsLackLetter('m');
    AbsentFromFixKey(bad, 'm', 'm', 'm');
  }

  lemma EntryAbsent3(bad: string)
    requires bad == DenyList[3]
    ensures !Contains(FixKey, bad)
  {
    AbsentFromFixKey(bad, '_', 'n', 'e');
  }

  lemma EntryAbsent4(bad: string)
    requires bad == DenyList[4]
    ensures !Contains(FixKey, bad)
  {
    ErrorAbsentFromFixKey(bad);
  }

  lemma EntryAbsent5(bad: string)
    requires bad == DenyList[5]
    ensures !Contains(FixKey, bad)
  {
    PartsLackLetter('f');
    AbsentFromFixKey(bad, 'f', 'f', 'f');
  }

  lemma EntryAbsent6(bad: string)
    requires bad == DenyList[6]
    ensures !Contains(FixKey, bad)
  {
    PartsLackLetter('f');
    AbsentFromFixKey(bad, 'f', 'f', 'f');
  }

  lemma EntryAbsent7(bad: string)
    requires bad == DenyList[7]
    ensures !Contains(FixKey, bad)
  {
    PartsLackLetter('h');
    AbsentFromFixKey(bad, 'h', 'h', 'h');
  }

  lemma EntryAbsent8(bad: string)
    requires bad == DenyList[8]
    ensures !Contains(FixKey, bad)
  {
    AbsentFromFixKey(bad, '_', 'i', 'e');
  }

  lemma EntryAbsent9(bad: string)
    requires bad == DenyList[9]
    ensures !Contains(FixKey, bad)
  {
    PartsLackLetter('m');
    AbsentFromFixKey(bad, 'm', 'm', 'm');
  }

  lemma EntryAbsent10(bad: string)
    requires bad == DenyList[10]
    ensures !Contains(FixKey, bad)
  {
    PartsLackLetter('m');
    AbsentFromFixKey(bad, 'm', 'm', 'm');
  }

  lemma EntryAbsent11(bad: string)
    requires bad == DenyList[11]
    ensures !Contains(FixKey, bad)
  {
    PartsLackLetter('m');
    AbsentFromFixKey(bad, 'm', 'm', 'm');
  }

  lemma EntryAbsent12(bad: string)
    requires bad == DenyList[12]
    ensures !Contains(FixKey, bad)
  {
    PartsLackLetter('b');
    AbsentFromFixKey(bad, 'b', 'b', 'b');
  }

  lemma EntryAbsent13(bad: string)
    requires bad == DenyList[13]
    ensures !Contains(FixKey, bad)
  {
    PartsLackLetter('b');
    AbsentFromFixKey(bad, 'b', 'b', 'b');
  }

  lemma EntryAbsent14(bad: string)
    requires bad == DenyList[14]
    ensures !Contains(FixKey, bad)
  {
    PartsLackLetter('b');
    AbsentFromFixKey(bad, 'b', 'b', 'b');
  }

  lemma EntryAbsent15(bad: string)
    requires bad == DenyList[15]
    ensures !Contains(FixKey, bad)
  {
    AbsentFromFixKey(bad, '_', 'p', 'g');
  }

  lemma EntryAbsent16(bad: string)
    requires bad == DenyList[16]
    ensures !Contains(FixKey, bad)
  {
    PartsLackLetter('h');
    AbsentFromFixKey(bad, 'h', 'h', 'h');
  }

  lemma EntryAbsent17(bad: string)
    requires bad == DenyList[17]
    ensures !Contains(FixKey, bad)
  {
    PartsLackLetter('m');
    AbsentFromFixKey(bad, 'm', 'm', 'm');
  }

  /** The fixed key is not itself denylisted. */
  lemma FixKeyKept()
    ensures !Dropped(FixKey)
  {
    forall i | 0 <= i < |DenyList|
      ensures !Contains(FixKey, DenyList[i])
    {
      if i == 0 {
        EntryAbsent0(DenyList[i]);
      } else if i == 1 {
        EntryAbsent1(DenyList[i]);
      } else if i == 2 {
        EntryAbsent2(DenyList[i]);
      } else if i == 3 {
        EntryAbsent3(DenyList[i]);
      } else if i == 4 {
        EntryAbsent4(DenyList[i]);
      } else if i == 5 {
        EntryAbsent5(DenyList[i]);
      } else if i == 6 {
        EntryAbsent6(DenyList[i]);
      } else if i == 7 {
        EntryAbsent7(DenyList[i]);
      } else if i == 8 {
        EntryAbsent8(DenyList[i]);
      } else if i == 9 {
        EntryAbsent9(DenyList[i]);
      } else if i == 10 {
        EntryAbsent10(DenyList[i]);
      } else if i == 11 {
        EntryAbsent11(DenyList[i]);
      } else if i == 12 {
        EntryAbsent12(DenyList[i]);
      } else if i == 13 {
        EntryAbsent13(DenyList[i]);
      } else if i == 14 {
        EntryAbsent14(DenyList[i]);
      } else if i == 15 {
        EntryAbsent15(DenyList[i]);
      } else if i == 16 {
        EntryAbsent16(DenyList[i]);
      } else {
        EntryAbsent17(DenyList[i]);
      }
    }
  }
}
