/**
 * The DateOption enum: its four constants, their display labels and the
 * static label-to-constant map that `lookup` reads.
 *
 * Case conversion is modelled for ASCII, the only characters the constant
 * names contain.
 */
module DateOptions {
  import opened Wrappers

  datatype DateOption = AllDays | Today | Last7Days | Last30Days

  /** The constants in declaration order (EnumSet.allOf iterates in this order). */
  const Values: seq<DateOption> := [AllDays, Today, Last7Days, Last30Days]

  /** Enum.name(), the text super.toString() returns. */
  function Name(d: DateOption): string
  {
    match d
    case AllDays => "ALL_DAYS"
    case Today => "TODAY"
    case Last7Days => "LAST_7_DAYS"
    case Last30Days => "LAST_30_DAYS"
  }

  function LowerChar(c: char): char
  {
    if 'A' <= c <= 'Z' then (c as int + 32) as char else c
  }

  function UpperChar(c: char): char
  {
    if 'a' <= c <= 'z' then (c as int - 32) as char else c
  }

  /** The character String.replace("_", " ") leaves at a position. */
  function SpaceFor(c: char): char
  {
    if c == '_' then ' ' else c
  }

  /**
   * String.toLowerCase() followed by replace("_", " "): no capital and no
   * underscore is left, capitals become their small letters, underscores
   * become blanks, and every other character stays where it was.
   */
  function LowerSpaced(s: string): (r: string)
    ensures |r| == |s|
    ensures forall i :: 0 <= i < |r| ==> !('A' <= r[i] <= 'Z') && r[i] != '_'
    ensures forall i :: 0 <= i < |s| && 'A' <= s[i] <= 'Z' ==> r[i] as int == s[i] as int + 32
    ensures forall i :: 0 <= i < |s| && s[i] == '_' ==> r[i] == ' '
    ensures forall i :: 0 <= i < |s| && !('A' <= s[i] <= 'Z') && s[i] != '_' ==> r[i] == s[i]
  {
    seq(|s|, i requires 0 <= i < |s| => SpaceFor(LowerChar(s[i])))
  }

  /**
   * getFormattedString: lower-case, underscores to blanks, then the first
   * character upper-cased. `substring(0, 1)` throws on an empty string, so the
   * input must be non-empty.
   */
  function GetFormattedString(input: string): (r: string)
    requires |input| > 0
  {
    var s := LowerSpaced(input);
    [UpperChar(s[0])] + s[1..]
  }

  /** DateOption.toString(): the display label. */
  function ToString(d: DateOption): string
  {
    GetFormattedString(Name(d))
  }

  /** The key under which the static initializer stores `d`: getFormattedString(d.toString()). */
  function MapKey(d: DateOption): string
  {
    GetFormattedString(ToString(d))
  }

  /** The four labels, as the user sees them. */
  lemma Labels()
    ensures ToString(AllDays) == "All days"
    ensures ToString(Today) == "Today"
    ensures ToString(Last7Days) == "Last 7 days"
    ensures ToString(Last30Days) == "Last 30 days"
  {
    LabelAllDays();
    LabelToday();
    LabelLast7Days();
    LabelLast30Days();
  }

  lemma LabelAllDays()
    ensures ToString(AllDays) == "All days"
  {
    assert LowerSpaced("ALL_DAYS") == "all days";
  }

  lemma LabelToday()
    ensures ToString(Today) == "Today"
  {
    assert LowerSpaced("TODAY") == "today";
  }

  lemma LabelLast7Days()
    ensures ToString(Last7Days) == "Last 7 days"
  {
    assert LowerSpaced("LAST_7_DAYS") == "last 7 days";
  }

  lemma LabelLast30Days()
    ensures ToString(Last30Days) == "Last 30 days"
  {
    assert LowerSpaced("LAST_30_DAYS") == "last 30 days";
  }

  /** Formatting a formatted string changes nothing. */
  lemma FormattingIdempotent(s: string)
    requires |s| > 0
    ensures GetFormattedString(GetFormattedString(s)) == GetFormattedString(s)
  {
    var f := GetFormattedString(s);
    var g := GetFormattedString(f);
    assert |g| == |f|;
    forall i | 0 <= i < |f| ensures g[i] == f[i] {
      var c := SpaceFor(LowerChar(s[i]));
      assert c != '_' && !('A' <= c <= 'Z');
      if i == 0 {
        assert f[0] == UpperChar(c);
        assert SpaceFor(LowerChar(UpperChar(c))) == c;
      } else {
        assert f[i] == c;
      }
    }
  }

  /** So the static map's keys are exactly the display labels. */
  lemma MapKeyIsLabel(d: DateOption)
    ensures MapKey(d) == ToString(d)
  {
    FormattingIdempotent(Name(d));
  }

  /** The four labels are pairwise distinct: Collectors.toMap meets no duplicate key. */
  lemma LabelsDistinct(d: DateOption, e: DateOption)
    requires d != e
    ensures ToString(d) != ToString(e)
  {
    Labels();
  }

  /** The map built once by the static initializer, keyed by getFormattedString(d.toString()). */
  function LabelMap(): map<string, DateOption>
  {
    KeysDistinct();
    map d | d in Values :: MapKey(d) := d
  }

  /** Collectors.toMap throws on a repeated key; the four keys are pairwise distinct. */
  lemma KeysDistinct()
    ensures forall d, e :: d in Values && e in Values && MapKey(d) == MapKey(e) ==> d == e
  {
    forall d, e | d in Values && e in Values && d != e ensures MapKey(d) != MapKey(e) {
      MapKeyIsLabel(d);
      MapKeyIsLabel(e);
      LabelsDistinct(d, e);
    }
  }

  /** The static map holds one entry per constant, keyed by its label. */
  lemma LabelMapHasLabel(d: DateOption)
    ensures ToString(d) in LabelMap() && LabelMap()[ToString(d)] == d
  {
    MapKeyIsLabel(d);
    KeysDistinct();
    assert d in Values;
    assert MapKey(d) in LabelMap();
  }

  /** Every key of the static map is a label. */
  lemma LabelMapOnlyLabels(s: string)
    requires s in LabelMap()
    ensures exists d :: s == ToString(d)
  {
    var d :| d in Values && s == MapKey(d);
    MapKeyIsLabel(d);
  }

  /** lookup(s): the constant whose label is `s`; None for Java's null. */
  function Lookup(s: string): Option<DateOption>
  {
    var m := LabelMap();
    if s in m then Some(m[s]) else None
  }

  /** Looking up a constant's label gives the constant back. */
  lemma LookupToString(d: DateOption)
    ensures Lookup(ToString(d)) == Some(d)
  {
    LabelMapHasLabel(d);
  }

  /** A successful lookup was given that constant's label; anything else yields null. */
  lemma LookupOnlyLabels(s: string)
    ensures Lookup(s).Some? ==> s == ToString(Lookup(s).value)
    ensures (forall d :: s != ToString(d)) ==> Lookup(s) == None
  {
    if s in LabelMap() {
      LabelMapOnlyLabels(s);
      var d :| s == ToString(d);
      LabelMapHasLabel(d);
    }
  }

  /** Exactly four constants, in declaration order, each listed once. */
  lemma ValuesComplete(d: DateOption)
    ensures |Values| == 4 && d in Values
    ensures forall i, j :: 0 <= i < j < |Values| ==> Values[i] != Values[j]
  {
  }
}
