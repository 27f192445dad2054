/** The fixed report template: the four harmonic tables, the header phrase that
    opens each one, the phrases that end it (`SECTION_BOUNDARIES`), the order in
    which headers are tried (`SUPPORTED_TABLES`) and the measured-column names. */
module Config {
  import opened Strings
  import opened Seqs

  datatype TableKind = VoltageFull | CurrentFull | VoltageDaily | CurrentDaily

  /** `SUPPORTED_TABLES`: the order in which a page is scanned for headers. */
  const SupportedTables: seq<TableKind> := [VoltageFull, CurrentFull, VoltageDaily, CurrentDaily]

  /** The substring that never ends the Harmonic Current Daily table. */
  const Harmonic5Marker: string := "HARMONIC 5:"

  /** The table's name as the source writes it. */
  function Title(k: TableKind): string {
    match k
    case VoltageFull => "Harmonic Voltage Full Time Range"
    case CurrentFull => "Harmonic Current Full Time Range"
    case VoltageDaily => "Harmonic Voltage Daily"
    case CurrentDaily => "Harmonic Current Daily"
  }

  /** The header phrase searched for in the upper-cased page text. */
  function Header(k: TableKind): string {
    match k
    case VoltageFull => "HARMONIC VOLTAGE FULL TIME RANGE"
    case CurrentFull => "HARMONIC CURRENT FULL TIME RANGE"
    case VoltageDaily => "HARMONIC VOLTAGE DAILY"
    case CurrentDaily => "HARMONIC CURRENT DAILY"
  }

  /** `SECTION_BOUNDARIES[Header(k)]`: the phrases that end table `k`, in configuration order. */
  function Terminators(k: TableKind): seq<string> {
    match k
    case VoltageFull =>
      ["SUMMARY", "TOTAL HARMONIC VOLTAGE FULL TIME RANGE",
       "TOTAL HARMONIC DISTORTION FULL TIME RANGE", "HARMONIC CURRENT FULL TIME RANGE"]
    case CurrentFull =>
      ["TOTAL HARMONIC DISTORTION DAILY", "TDD FULL TIME RANGE",
       "HARMONIC VOLTAGE DAILY", "TRANSIENT"]
    case VoltageDaily =>
      ["TOTAL HARMONIC DISTORTION FULL TIME RANGE", "TOTAL HARMONIC VOLTAGE FULL TIME RANGE",
       "HARMONIC CURRENT DAILY", "TOTAL HARMONIC DISTORTION DAILY"]
    case CurrentDaily =>
      ["TDD FULL TIME RANGE", "TDD DAILY", "TRANSIENT", "FLICKER SEVERITY"]
  }

  /** The terminators the boundary check uses: for Harmonic Current Daily, those
      not containing "HARMONIC 5"; for the others, all of them. */
  function ActiveTerminators(k: TableKind): seq<string> {
    if k == CurrentDaily then Filter(Terminators(k), NotHarmonic5)
    else Terminators(k)
  }

  predicate NotHarmonic5(t: string) {
    !Contains(Upper(t), "HARMONIC 5")
  }

  /** The measured phases, in column order: three different names, none with a `_`. */
  function Phases(k: TableKind): (ps: seq<string>)
    ensures |ps| == 3
    ensures ps[0] != ps[1] && ps[1] != ps[2] && ps[0] != ps[2]
    ensures forall i :: 0 <= i < 3 ==> '_' !in ps[i]
  {
    if Contains(Title(k), "Current") then ["I1", "I2", "I3"] else ["V1N", "V2N", "V3N"]
  }

  /** The three `Measured_*` column names of the table's schema: the text after the
      last `_` of each is that column's phase. */
  function MeasuredColumns(k: TableKind): (cs: seq<string>)
    ensures |cs| == 3
    ensures forall i :: 0 <= i < 3 ==> LastSegment(cs[i]) == Phases(k)[i]
  {
    var ps := Phases(k);
    LastSegmentAfterUnderscore("Measured", ps[0]);
    LastSegmentAfterUnderscore("Measured", ps[1]);
    LastSegmentAfterUnderscore("Measured", ps[2]);
    ["Measured" + "_" + ps[0], "Measured" + "_" + ps[1], "Measured" + "_" + ps[2]]
  }

  lemma HeaderIsUpperTitle(k: TableKind)
    ensures Header(k) == Upper(Title(k))
  {
    match k
    case VoltageFull => UpperVoltageFull();
    case CurrentFull => UpperCurrentFull();
    case VoltageDaily => UpperVoltageDaily();
    case CurrentDaily => UpperCurrentDaily();
  }

  lemma UpperVoltageFull() ensures Upper(Title(VoltageFull)) == Header(VoltageFull) {
    UpperHalves("Harmonic Voltage", " Full Time Range", "HARMONIC VOLTAGE", " FULL TIME RANGE");
  }

  lemma UpperCurrentFull() ensures Upper(Title(CurrentFull)) == Header(CurrentFull) {
    UpperHalves("Harmonic Current", " Full Time Range", "HARMONIC CURRENT", " FULL TIME RANGE");
  }

  /** Upper-casing a two-part phrase part by part. */
  lemma UpperHalves(a: string, b: string, ua: string, ub: string)
    requires |a| == |ua| && forall i | 0 <= i < |a| :: UpperChar(a[i]) == ua[i]
    requires |b| == |ub| && forall i | 0 <= i < |b| :: UpperChar(b[i]) == ub[i]
    ensures Upper(a + b) == ua + ub
  {
    UpperWord(a, ua);
    UpperWord(b, ub);
    UpperConcat(a, b);
  }

  lemma UpperConcat(a: string, b: string)
    ensures Upper(a + b) == Upper(a) + Upper(b)
  {
  }

  lemma UpperVoltageDaily() ensures Upper(Title(VoltageDaily)) == Header(VoltageDaily) {
    UpperWord(Title(VoltageDaily), Header(VoltageDaily));
  }

  lemma UpperCurrentDaily() ensures Upper(Title(CurrentDaily)) == Header(CurrentDaily) {
    UpperWord(Title(CurrentDaily), Header(CurrentDaily));
  }

  lemma UpperWord(w: string, u: string)
    requires |w| == |u| && forall i | 0 <= i < |w| :: UpperChar(w[i]) == u[i]
    ensures Upper(w) == u
  {
  }

  /** The "HARMONIC 5" filter of the boundary check removes no configured terminator. */
  lemma ActiveTerminatorsAreAll(k: TableKind)
    ensures ActiveTerminators(k) == Terminators(k)
  {
    if k == CurrentDaily {
      var ts := Terminators(k);
      NoHarmonic5(ts[0]);
      NoHarmonic5(ts[1]);
      NoHarmonic5(ts[2]);
      NoHarmonic5(ts[3]);
      FilterAll(ts, NotHarmonic5);
    }
  }

  /** A phrase without the digit 5 does not contain "HARMONIC 5", in any case. */
  lemma NoHarmonic5(t: string)
    requires '5' !in t
    ensures NotHarmonic5(t)
  {
    assert '5' !in Upper(t) by {
      forall i | 0 <= i < |t| ensures Upper(t)[i] != '5' {
        assert t[i] != '5';
      }
    }
    NotContainsByChar(Upper(t), "HARMONIC 5", 9);
  }

  lemma {:induction false} FilterAll<T(!new)>(s: seq<T>, p: T -> bool)
    requires forall i :: 0 <= i < |s| ==> p(s[i])
    ensures Filter(s, p) == s
  {
    if s != [] {
      assert p(s[0]);
      FilterAll(s[1..], p);
    }
  }

  /** Which titles mention "Current" (the case-sensitive test of the per-file sheet name). */
  lemma TitleMentionsCurrent(k: TableKind)
    ensures Contains(Title(k), "Current") <==> (k == CurrentFull || k == CurrentDaily)
  {
    var t := Title(k);
    if k == CurrentFull || k == CurrentDaily {
      OccursAtByChars(t, "Current", 9);
    } else {
      NotContainsByChar(t, "Current", 0);
    }
  }

  /** Which titles mention "Daily" (the case-sensitive test of the per-file sheet name). */
  lemma TitleMentionsDaily(k: TableKind)
    ensures Contains(Title(k), "Daily") <==> (k == VoltageDaily || k == CurrentDaily)
  {
    var t := Title(k);
    if k == VoltageDaily || k == CurrentDaily {
      OccursAtByChars(t, "Daily", 17);
    } else {
      NotContainsByChar(t, "Daily", 0);
    }
  }
}
