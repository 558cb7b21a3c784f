/**
 * The translation from the distance labels the user picks to the distance codes
 * under which the results are stored ("P" traditional, "V" freestyle, then kilometres).
 */
module DistanceTable {

  /** The label/code pairs in the order the lookup tests them, duplicates included. */
  const Entries: seq<(string, string)> := [
    ("50 km traditional", "P50"),
    ("50 km freestyle", "V50"),
    ("100km traditional", "P100"),
    ("32km traditional", "P32"),
    ("20km freestyle", "V20"),
    ("32km freestyle", "V32"),
    ("20km freestyle, juniors", "V20jun"),
    ("42km traditional", "P42"),
    ("42km freestyle", "V42"),
    ("32km freestyle (2014)", "V32"),
    ("20km traditional (2014)", "P20"),
    ("30km traditional (2002-2005)", "P30"),
    ("44km traditional (2002)", "P44"),
    ("60km traditional (2003-2005)", "P60"),
    ("62km traditional (2006)", "P62"),
    ("25km traditional", "P25"),
    ("32km traditional", "P32"),
    ("35km traditional", "P35"),
    ("45km traditional", "P45"),
    ("52km traditional", "P52"),
    ("53km traditional", "P53"),
    ("75km traditional", "P75"),
    ("30km freestyle", "V30"),
    ("45km freestyle", "V45"),
    ("53km freestyle", "V53"),
    ("75km freestyle", "V75"),
    ("All types", "all")
  ]

  /**
   * The code for a distance label: the labels are compared in table order, so the
   * first equal label decides; "All types" gives "all" and an unknown label "".
   */
  function SearchDistanceParameter(distance: string): string
  {
    FirstCode(Entries, distance)
  }

  /** The code of the first entry whose label is the given one, or "". */
  function FirstCode(entries: seq<(string, string)>, distance: string): string
  {
    if entries == [] then ""
    else if entries[0].0 == distance then entries[0].1
    else FirstCode(entries[1..], distance)
  }

  /**
   * The first-match lookup: "" when no label matches (and the codes are non-empty),
   * otherwise the code of an entry with that label and no equal label before it.
   */
  lemma {:induction false} FirstCodeIsFirstMatch(entries: seq<(string, string)>, distance: string)
    requires forall i :: 0 <= i < |entries| ==> entries[i].1 != ""
    ensures FirstCode(entries, distance) == "" <==> forall i :: 0 <= i < |entries| ==> entries[i].0 != distance
    ensures FirstCode(entries, distance) != "" ==>
              exists i :: 0 <= i < |entries| && entries[i] == (distance, FirstCode(entries, distance)) &&
                          forall j :: 0 <= j < i ==> entries[j].0 != distance
  {
    if entries != [] && entries[0].0 != distance {
      var rest := entries[1..];
      FirstCodeIsFirstMatch(rest, distance);
      if FirstCode(rest, distance) != "" {
        var i :| 0 <= i < |rest| && rest[i] == (distance, FirstCode(rest, distance)) &&
                 forall j :: 0 <= j < i ==> rest[j].0 != distance;
        assert entries[i + 1] == rest[i];
        forall j | 0 <= j < i + 1 ensures entries[j].0 != distance {
          if j > 0 { assert entries[j] == rest[j - 1]; }
        }
      } else {
        forall i | 0 <= i < |entries| ensures entries[i].0 != distance {
          if i > 0 { assert entries[i] == rest[i - 1]; }
        }
      }
    } else if entries != [] {
      assert entries[0] == (distance, FirstCode(entries, distance));
    }
  }

  /** No code of the table is empty or "All". */
  lemma CodesOfTheTable()
    ensures forall i :: 0 <= i < |Entries| ==> Entries[i].1 != "" && Entries[i].1 != "All"
  {
  }

  /**
   * Against the table: an unknown label gives "", a listed one gives the code the
   * table pairs with its first occurrence; never "All".
   */
  lemma SearchDistanceParameterAgreesWithTable(distance: string)
    ensures SearchDistanceParameter(distance) == "" <==> forall i :: 0 <= i < |Entries| ==> Entries[i].0 != distance
    ensures SearchDistanceParameter(distance) != "" ==>
              exists i :: 0 <= i < |Entries| && Entries[i] == (distance, SearchDistanceParameter(distance)) &&
                          forall j :: 0 <= j < i ==> Entries[j].0 != distance
    ensures SearchDistanceParameter(distance) != "All"
  {
    CodesOfTheTable();
    FirstCodeIsFirstMatch(Entries, distance);
  }

  /** The first entry carrying a label decides its code. */
  lemma {:induction false} FirstCodeAt(entries: seq<(string, string)>, distance: string, i: nat)
    requires i < |entries| && entries[i].0 == distance
    requires forall j :: 0 <= j < i ==> entries[j].0 != distance
    ensures FirstCode(entries, distance) == entries[i].1
  {
    if i > 0 {
      FirstCodeAt(entries[1..], distance, i - 1);
    }
  }

  /** "32km traditional" is listed twice, both times with "P32". */
  lemma TraditionalThirtyTwo()
    ensures SearchDistanceParameter("32km traditional") == "P32"
  {
    forall j | 0 <= j < 3 ensures Entries[j].0 != "32km traditional" {
      assert |Entries[j].0| != |"32km traditional"|;
    }
    FirstCodeAt(Entries, "32km traditional", 3);
  }

  /** "32km freestyle" gives "V32". */
  lemma FreestyleThirtyTwo()
    ensures SearchDistanceParameter("32km freestyle") == "V32"
  {
    forall j | 0 <= j < 5 ensures Entries[j].0 != "32km freestyle" {
      assert |Entries[j].0| != |"32km freestyle"| || Entries[j].0[0] != '3';
    }
    FirstCodeAt(Entries, "32km freestyle", 5);
  }

  /** Its 2014 variant, a separate label further down, gives the same "V32". */
  lemma FreestyleThirtyTwoOf2014()
    ensures SearchDistanceParameter("32km freestyle (2014)") == "V32"
  {
    forall j | 0 <= j < 9 ensures Entries[j].0 != "32km freestyle (2014)" {
      assert |Entries[j].0| != |"32km freestyle (2014)"|;
    }
    FirstCodeAt(Entries, "32km freestyle (2014)", 9);
  }

  /** "All types", the last entry, selects every distance. */
  lemma AllTypes()
    ensures SearchDistanceParameter("All types") == "all"
  {
    forall j | 0 <= j < 26 ensures Entries[j].0 != "All types" {
      assert |Entries[j].0| != |"All types"|;
    }
    FirstCodeAt(Entries, "All types", 26);
  }
}
