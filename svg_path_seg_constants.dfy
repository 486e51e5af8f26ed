/** Lookup tables of the SVG path-segment polyfill.
  *
  * SEGMENT_NAMES maps a path command letter (section 8.3 of SVG 1.1) to the name of the
  * SVGPathSeg interface that represents it (section 8.5 of SVG 1.1); TYPE_TO_TAG maps the
  * numeric segment type of that interface back to a command letter. Both are JavaScript
  * `Map`s built from an entry list, where a later entry for a key replaces an earlier one.
  */
module SvgPathSegConstants {

  /** The path command letters. `z` is the only close-path letter the tables use. */
  datatype PathTag = z | M | m | L | l | C | c | Q | q | A | a | S | s | T | t | H | h | V | v

  /** The SVGPathSeg segment types (PATHSEG_UNKNOWN ... PATHSEG_CURVETO_QUADRATIC_SMOOTH_REL). */
  datatype PathSegmentType =
    | Unknown | ClosePath | MovetoAbs | MovetoRel | LinetoAbs | LinetoRel
    | CurvetoCubicAbs | CurvetoCubicRel | CurvetoQuadraticAbs | CurvetoQuadraticRel
    | ArcAbs | ArcRel | LinetoHorizontalAbs | LinetoHorizontalRel
    | LinetoVerticalAbs | LinetoVerticalRel | CurvetoCubicSmoothAbs | CurvetoCubicSmoothRel
    | CurvetoQuadraticSmoothAbs | CurvetoQuadraticSmoothRel

  /** `new Map(entries)`: every listed key is present, and the last entry for a key wins. */
  function MapFromEntries<K, V>(entries: seq<(K, V)>): (r: map<K, V>)
    ensures r.Keys == set i | 0 <= i < |entries| :: entries[i].0
  {
    if entries == [] then map[]
    else
      var last := entries[|entries| - 1];
      MapFromEntries(entries[..|entries| - 1])[last.0 := last.1]
  }

  /** Position of the last entry listing key `k`, or -1 when no entry lists it. */
  function LastIndexOf<K(==), V>(entries: seq<(K, V)>, k: K): (i: int)
    ensures -1 <= i < |entries|
    ensures i >= 0 ==> entries[i].0 == k
    ensures forall j :: i < j < |entries| ==> entries[j].0 != k
  {
    if entries == [] then -1
    else if entries[|entries| - 1].0 == k then |entries| - 1
    else LastIndexOf(entries[..|entries| - 1], k)
  }

  /** A key is present iff some entry lists it, and its value is that of the last such entry. */
  lemma {:induction false} LastEntryWins<K, V>(entries: seq<(K, V)>, k: K)
    ensures (k in MapFromEntries(entries)) == (LastIndexOf(entries, k) >= 0)
    ensures k in MapFromEntries(entries) ==> MapFromEntries(entries)[k] == entries[LastIndexOf(entries, k)].1
  {
    if entries != [] && entries[|entries| - 1].0 != k {
      LastEntryWins(entries[..|entries| - 1], k);
    }
  }

  /** Looking up a key listed at position `i` and at no later position gives that entry's value. */
  lemma LookupAt<K, V>(entries: seq<(K, V)>, k: K, i: int)
    requires 0 <= i < |entries| && entries[i].0 == k
    requires forall j :: i < j < |entries| ==> entries[j].0 != k
    ensures k in MapFromEntries(entries) && MapFromEntries(entries)[k] == entries[i].1
  {
    LastEntryWins(entries, k);
  }

  /** A key no entry lists is absent from the map. */
  lemma LookupAbsent<K, V>(entries: seq<(K, V)>, k: K)
    requires forall j :: 0 <= j < |entries| ==> entries[j].0 != k
    ensures k !in MapFromEntries(entries)
  {
  }

  const SEGMENT_ENTRIES: seq<(PathTag, string)> := [
    (PathTag.z, "SVGPathSegClosePath"),
    (PathTag.M, "SVGPathSegMovetoAbs"),
    (PathTag.m, "SVGPathSegMovetoRel"),
    (PathTag.L, "SVGPathSegLinetoAbs"),
    (PathTag.l, "SVGPathSegLinetoRel"),
    (PathTag.C, "SVGPathSegCurvetoCubicAbs"),
    (PathTag.c, "SVGPathSegCurvetoCubicRel"),
    (PathTag.Q, "SVGPathSegCurvetoQuadraticAbs"),
    (PathTag.q, "SVGPathSegCurvetoQuadraticRel"),
    (PathTag.A, "SVGPathSegArcAbs"),
    (PathTag.a, "SVGPathSegArcRel"),
    (PathTag.S, "SVGPathSegCurvetoCubicSmoothAbs"),
    (PathTag.s, "SVGPathSegCurvetoCubicSmoothRel"),
    (PathTag.T, "SVGPathSegCurvetoQuadraticSmoothAbs"),
    (PathTag.t, "SVGPathSegCurvetoQuadraticSmoothRel"),
    (PathTag.H, "SVGPathSegLinetoHorizontalAbs"),
    (PathTag.h, "SVGPathSegLinetoHorizontalRel"),
    (PathTag.V, "SVGPathSegLinetoVerticalAbs"),
    (PathTag.v, "SVGPathSegLinetoVerticalRel")
  ]

  const SEGMENT_NAMES: map<PathTag, string> := MapFromEntries(SEGMENT_ENTRIES)

  const TYPE_ENTRIES: seq<(PathSegmentType, PathTag)> := [
    (PathSegmentType.ArcAbs, PathTag.A),
    (PathSegmentType.ArcRel, PathTag.a),
    (PathSegmentType.ClosePath, PathTag.z),
    (PathSegmentType.CurvetoCubicAbs, PathTag.C),
    (PathSegmentType.CurvetoCubicRel, PathTag.c),
    (PathSegmentType.CurvetoCubicSmoothAbs, PathTag.S),
    (PathSegmentType.CurvetoCubicSmoothRel, PathTag.s),
    (PathSegmentType.CurvetoQuadraticAbs, PathTag.Q),
    (PathSegmentType.CurvetoQuadraticRel, PathTag.q),
    (PathSegmentType.CurvetoQuadraticSmoothAbs, PathTag.T),
    (PathSegmentType.CurvetoQuadraticSmoothRel, PathTag.t),
    (PathSegmentType.LinetoAbs, PathTag.L),
    (PathSegmentType.LinetoVerticalRel, PathTag.H),
    (PathSegmentType.LinetoHorizontalAbs, PathTag.h),
    (PathSegmentType.LinetoRel, PathTag.l),
    (PathSegmentType.LinetoVerticalAbs, PathTag.V),
    (PathSegmentType.LinetoVerticalRel, PathTag.v),
    (PathSegmentType.MovetoAbs, PathTag.M),
    (PathSegmentType.MovetoRel, PathTag.m)
  ]

  /** TYPE_TO_TAG as written. */
  const TYPE_TO_TAG: map<PathSegmentType, PathTag> := MapFromEntries(TYPE_ENTRIES)

  /** The entry list with the two horizontal-lineto rows in their evidently intended form. */
  const CORRECTED_TYPE_ENTRIES: seq<(PathSegmentType, PathTag)> :=
    TYPE_ENTRIES[12 := (PathSegmentType.LinetoHorizontalAbs, PathTag.H)]
                [13 := (PathSegmentType.LinetoHorizontalRel, PathTag.h)]

  const CORRECTED_TYPE_TO_TAG: map<PathSegmentType, PathTag> := MapFromEntries(CORRECTED_TYPE_ENTRIES)

  /** Upper-case command letters are absolute commands, lower-case ones relative. */
  predicate IsUpperCase(tag: PathTag) {
    match tag
    case M | L | C | Q | A | S | T | H | V => true
    case _ => false
  }

  /** The segment types whose interface name ends in `Abs`. */
  predicate IsAbsolute(kind: PathSegmentType) {
    match kind
    case MovetoAbs | LinetoAbs | CurvetoCubicAbs | CurvetoQuadraticAbs | ArcAbs
      | LinetoHorizontalAbs | LinetoVerticalAbs | CurvetoCubicSmoothAbs | CurvetoQuadraticSmoothAbs => true
    case _ => false
  }

  /** `name` ends with `suffix`, compared character by character. */
  predicate HasSuffix(name: string, suffix: string) {
    |suffix| <= |name| && forall k :: 0 <= k < |suffix| ==> name[|name| - |suffix| + k] == suffix[k]
  }

  /** Position of an entry of SEGMENT_ENTRIES listing a tag. */
  function SegmentEntryIndex(tag: PathTag): (i: nat)
    ensures i < |SEGMENT_ENTRIES| && SEGMENT_ENTRIES[i].0 == tag
  {
    match tag
    case z => 0 case M => 1 case m => 2 case L => 3 case l => 4 case C => 5 case c => 6
    case Q => 7 case q => 8 case A => 9 case a => 10 case S => 11 case s => 12
    case T => 13 case t => 14 case H => 15 case h => 16 case V => 17 case v => 18
  }

  /** Position of an entry of TYPE_ENTRIES listing a type, or -1 for the two types it omits. */
  function TypeEntryIndex(kind: PathSegmentType): (i: int)
    ensures -1 <= i < |TYPE_ENTRIES|
    ensures i >= 0 ==> TYPE_ENTRIES[i].0 == kind
    ensures i < 0 <==> kind == PathSegmentType.Unknown || kind == PathSegmentType.LinetoHorizontalRel
  {
    match kind
    case ArcAbs => 0 case ArcRel => 1 case ClosePath => 2 case CurvetoCubicAbs => 3
    case CurvetoCubicRel => 4 case CurvetoCubicSmoothAbs => 5 case CurvetoCubicSmoothRel => 6
    case CurvetoQuadraticAbs => 7 case CurvetoQuadraticRel => 8 case CurvetoQuadraticSmoothAbs => 9
    case CurvetoQuadraticSmoothRel => 10 case LinetoAbs => 11 case LinetoHorizontalAbs => 13
    case LinetoRel => 14 case LinetoVerticalAbs => 15 case LinetoVerticalRel => 16
    case MovetoAbs => 17 case MovetoRel => 18
    case Unknown => -1 case LinetoHorizontalRel => -1
  }

  /** No command letter is listed twice in the SEGMENT_NAMES entry list. */
  lemma SegmentKeysDistinct()
    ensures forall i, j :: 0 <= i < j < |SEGMENT_ENTRIES| ==> SEGMENT_ENTRIES[i].0 != SEGMENT_ENTRIES[j].0
  {
    forall i | 0 <= i < |SEGMENT_ENTRIES|
      ensures SegmentEntryIndex(SEGMENT_ENTRIES[i].0) == i
    {
    }
  }

  /** No interface name is listed twice in the SEGMENT_NAMES entry list. */
  lemma SegmentValuesDistinct()
    ensures forall i, j :: 0 <= i < j < |SEGMENT_ENTRIES| ==> SEGMENT_ENTRIES[i].1 != SEGMENT_ENTRIES[j].1
  {
  }

  /** Every name but ClosePath's ends in `Abs` for an upper-case letter and in `Rel` for a lower-case one. */
  lemma SegmentSuffixes()
    ensures forall i :: 0 <= i < |SEGMENT_ENTRIES| && SEGMENT_ENTRIES[i].0 != PathTag.z ==>
      HasSuffix(SEGMENT_ENTRIES[i].1, if IsUpperCase(SEGMENT_ENTRIES[i].0) then "Abs" else "Rel")
  {
  }

  /** No row of the TYPE_TO_TAG entry list names Unknown or the relative horizontal lineto. */
  lemma TypeTableKeys()
    ensures forall i :: 0 <= i < |TYPE_ENTRIES| ==>
      TYPE_ENTRIES[i].0 != PathSegmentType.Unknown && TYPE_ENTRIES[i].0 != PathSegmentType.LinetoHorizontalRel
  {
  }

  /** Only row 12 of the TYPE_TO_TAG entry list carries the letter `H`. */
  lemma TypeTableLetterH()
    ensures forall i :: 0 <= i < |TYPE_ENTRIES| && TYPE_ENTRIES[i].1 == PathTag.H ==> i == 12
  {
  }

  /** Apart from rows 12 and 13 and ClosePath, each row's letter case matches its type. */
  lemma TypeTableCase()
    ensures forall i :: 0 <= i < |TYPE_ENTRIES| && i != 12 && i != 13 && TYPE_ENTRIES[i].0 != PathSegmentType.ClosePath ==>
      IsUpperCase(TYPE_ENTRIES[i].1) == IsAbsolute(TYPE_ENTRIES[i].0)
  {
  }

  /** Row-by-row facts about the corrected entry list. */
  lemma CorrectedTypeTableShape()
    ensures forall i :: 0 <= i < |CORRECTED_TYPE_ENTRIES| ==> CORRECTED_TYPE_ENTRIES[i].0 != PathSegmentType.Unknown
    ensures forall i :: 0 <= i < |CORRECTED_TYPE_ENTRIES| && CORRECTED_TYPE_ENTRIES[i].0 != PathSegmentType.ClosePath ==>
      IsUpperCase(CORRECTED_TYPE_ENTRIES[i].1) == IsAbsolute(CORRECTED_TYPE_ENTRIES[i].0)
    ensures forall i :: 0 <= i < |CORRECTED_TYPE_ENTRIES| && CORRECTED_TYPE_ENTRIES[i].0 == PathSegmentType.ClosePath ==>
      CORRECTED_TYPE_ENTRIES[i].1 == PathTag.z
  {
  }

  /** Every command letter has an interface name; `z` names ClosePath, and every other name ends
    * in `Abs` for an upper-case letter and in `Rel` for a lower-case one. */
  lemma SegmentNamesByCase(tag: PathTag)
    ensures tag in SEGMENT_NAMES
    ensures tag == PathTag.z ==> SEGMENT_NAMES[tag] == "SVGPathSegClosePath"
    ensures tag != PathTag.z ==> HasSuffix(SEGMENT_NAMES[tag], if IsUpperCase(tag) then "Abs" else "Rel")
  {
    var i := SegmentEntryIndex(tag);
    SegmentKeysDistinct();
    SegmentSuffixes();
    LastEntryWins(SEGMENT_ENTRIES, tag);
    assert LastIndexOf(SEGMENT_ENTRIES, tag) == i;
  }

  /** No two command letters share an interface name. */
  lemma SegmentNamesDistinct(t1: PathTag, t2: PathTag)
    requires t1 != t2
    ensures t1 in SEGMENT_NAMES && t2 in SEGMENT_NAMES
    ensures SEGMENT_NAMES[t1] != SEGMENT_NAMES[t2]
  {
    var i1, i2 := SegmentEntryIndex(t1), SegmentEntryIndex(t2);
    SegmentKeysDistinct();
    SegmentValuesDistinct();
    LastEntryWins(SEGMENT_ENTRIES, t1);
    LastEntryWins(SEGMENT_ENTRIES, t2);
    assert LastIndexOf(SEGMENT_ENTRIES, t1) == i1;
    assert LastIndexOf(SEGMENT_ENTRIES, t2) == i2;
  }

  /** LINETO_VERTICAL_REL is listed twice, first with `H` and then with `v`; the later entry
    * wins, so no type maps to `H` at all. */
  lemma TypeToTagDuplicateKey(kind: PathSegmentType)
    ensures TYPE_ENTRIES[12] == (PathSegmentType.LinetoVerticalRel, PathTag.H)
    ensures TYPE_ENTRIES[16] == (PathSegmentType.LinetoVerticalRel, PathTag.v)
    ensures PathSegmentType.LinetoVerticalRel in TYPE_TO_TAG
    ensures TYPE_TO_TAG[PathSegmentType.LinetoVerticalRel] == PathTag.v
    ensures kind in TYPE_TO_TAG ==> TYPE_TO_TAG[kind] != PathTag.H
  {
    LookupAt(TYPE_ENTRIES, PathSegmentType.LinetoVerticalRel, 16);
    TypeTableLetterH();
    LastEntryWins(TYPE_ENTRIES, kind);
    var i := LastIndexOf(TYPE_ENTRIES, kind);
    assert i != 12 by {
      assert TYPE_ENTRIES[16].0 == TYPE_ENTRIES[12].0;
    }
  }

  /** As written, the absolute horizontal lineto maps to the relative letter `h` and the relative
    * one has no entry, while ClosePath maps to `z`. */
  lemma TypeToTagHorizontalMismatch()
    ensures PathSegmentType.LinetoHorizontalRel !in TYPE_TO_TAG
    ensures PathSegmentType.LinetoHorizontalAbs in TYPE_TO_TAG && IsAbsolute(PathSegmentType.LinetoHorizontalAbs)
    ensures TYPE_TO_TAG[PathSegmentType.LinetoHorizontalAbs] == PathTag.h && !IsUpperCase(PathTag.h)
    ensures PathSegmentType.ClosePath in TYPE_TO_TAG && TYPE_TO_TAG[PathSegmentType.ClosePath] == PathTag.z
  {
    LookupAbsent(TYPE_ENTRIES, PathSegmentType.LinetoHorizontalRel);
    LookupAt(TYPE_ENTRIES, PathSegmentType.LinetoHorizontalAbs, 13);
    LookupAt(TYPE_ENTRIES, PathSegmentType.ClosePath, 2);
  }

  /** As written, every type except Unknown and the relative horizontal lineto has a letter, and
    * apart from the absolute horizontal lineto and ClosePath it is upper-case exactly for the
    * absolute types. */
  lemma TypeToTagByCase(kind: PathSegmentType)
    ensures kind in TYPE_TO_TAG <==> kind != PathSegmentType.Unknown && kind != PathSegmentType.LinetoHorizontalRel
    ensures kind in TYPE_TO_TAG && kind != PathSegmentType.LinetoHorizontalAbs && kind != PathSegmentType.ClosePath ==>
      IsUpperCase(TYPE_TO_TAG[kind]) == IsAbsolute(kind)
  {
    if kind == PathSegmentType.Unknown || kind == PathSegmentType.LinetoHorizontalRel {
      TypeTableKeys();
      LookupAbsent(TYPE_ENTRIES, kind);
    } else {
      var j := TypeEntryIndex(kind);
      var i := LastIndexOf(TYPE_ENTRIES, kind);
      assert i >= j;
      LastEntryWins(TYPE_ENTRIES, kind);
      if kind != PathSegmentType.LinetoHorizontalAbs && kind != PathSegmentType.ClosePath {
        assert i != 13;
        assert i != 12 by {
          assert TYPE_ENTRIES[16].0 == TYPE_ENTRIES[12].0;
        }
        TypeTableCase();
      }
    }
  }

  /** With the two horizontal rows corrected, every type except Unknown has a letter, and the
    * letter is upper-case exactly for the absolute types. */
  lemma CorrectedTypeToTagMatchesCase(kind: PathSegmentType)
    ensures kind in CORRECTED_TYPE_TO_TAG <==> kind != PathSegmentType.Unknown
    ensures kind in CORRECTED_TYPE_TO_TAG && kind != PathSegmentType.ClosePath ==>
      IsUpperCase(CORRECTED_TYPE_TO_TAG[kind]) == IsAbsolute(kind)
    ensures PathSegmentType.ClosePath in CORRECTED_TYPE_TO_TAG
    ensures CORRECTED_TYPE_TO_TAG[PathSegmentType.ClosePath] == PathTag.z
  {
    CorrectedTypeTableShape();
    LookupAt(CORRECTED_TYPE_ENTRIES, PathSegmentType.ClosePath, 2);
    if kind == PathSegmentType.Unknown {
      LookupAbsent(CORRECTED_TYPE_ENTRIES, kind);
    } else {
      var j := if kind == PathSegmentType.LinetoHorizontalRel then 13
               else if kind == PathSegmentType.LinetoHorizontalAbs then 12
               else TypeEntryIndex(kind);
      assert CORRECTED_TYPE_ENTRIES[j].0 == kind;
      var i := LastIndexOf(CORRECTED_TYPE_ENTRIES, kind);
      assert i >= j;
      LastEntryWins(CORRECTED_TYPE_ENTRIES, kind);
    }
  }
}
