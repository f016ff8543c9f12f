/**
 * The decision table at the end of analyze_urine_color: the hue, saturation
 * and value of the image's mean colour (each an 8-bit channel) are mapped,
 * first match wins, to one of six verdicts about the sample.
 */
module UrineColor {

  /** The six verdicts the analysis can return. */
  datatype Label = Clear | PaleYellow | DarkYellow | Orange | Brown | Unclassifiable

  /**
   * The exact text shown to the user for each verdict. Every colour verdict
   * carries advice in parentheses; the unclassifiable one has none.
   */
  function Text(l: Label): (t: string)
    ensures |t| > 0
    ensures t[|t| - 1] == ')' <==> l != Unclassifiable
  {
    match l
    case Clear => "ใส (อาจดื่มน้ำมาก)"
    case PaleYellow => "เหลืองอ่อน (ปกติ)"
    case DarkYellow => "เหลืองเข้ม (อาจขาดน้ำ)"
    case Orange => "ส้ม (ขาดน้ำมาก)"
    case Brown => "น้ำตาล (ควรพบแพทย์)"
    case Unclassifiable => "ไม่สามารถประเมินได้"
  }

  /** Distinct verdicts are shown as distinct texts, so the text identifies the verdict. */
  lemma TextInjective(l1: Label, l2: Label)
    requires l1 != l2
    ensures Text(l1) != Text(l2)
  {
  }

  predicate IsByte(x: int) { 0 <= x <= 255 }

  /** The first rule: a very bright, almost grey colour is clear urine. */
  predicate IsClear(s: int, v: int) { v > 220 && s < 30 }

  /**
   * The classifier. Every comparison is strict. The contract characterises
   * each verdict by itself: "clear" by brightness and saturation alone, and
   * once "clear" is ruled out, the yellow-to-brown verdicts by hue bands,
   * with everything between or above the bands unclassifiable.
   */
  function Classify(h: int, s: int, v: int): (r: Label)
    requires IsByte(h) && IsByte(s) && IsByte(v)
    ensures r == Clear <==> IsClear(s, v)
    ensures r == PaleYellow <==> !IsClear(s, v) && 40 < h < 70 && s > 100
    ensures !IsClear(s, v) ==> (r == DarkYellow <==> 20 < h < 40)
    ensures !IsClear(s, v) ==> (r == Orange <==> 10 < h < 20)
    ensures !IsClear(s, v) ==> (r == Brown <==> h < 10)
    ensures !IsClear(s, v) ==>
              (r == Unclassifiable <==> h == 10 || h == 20 || h == 40 || h >= 70 || (40 < h < 70 && s <= 100))
  {
    if v > 220 && s < 30 then Clear
    else if 40 < h < 70 && s > 100 then PaleYellow
    else if 20 < h < 40 then DarkYellow
    else if 10 < h < 20 then Orange
    else if h < 10 then Brown
    else Unclassifiable
  }

  /** "Clear" takes precedence over every hue, and its thresholds are strict. */
  lemma ClearPrecedence(h: int, s: int, v: int)
    requires IsByte(h) && IsByte(s) && IsByte(v)
    ensures v > 220 && s < 30 ==> Classify(h, s, v) == Clear
    ensures v == 220 || s == 30 ==> Classify(h, s, v) != Clear
  {
  }

  /**
   * Once "clear" is ruled out, dark yellow, orange and brown depend on the hue
   * only: changing saturation and value cannot change them.
   */
  lemma HueAloneDecides(h: int, s1: int, v1: int, s2: int, v2: int)
    requires IsByte(h) && IsByte(s1) && IsByte(v1) && IsByte(s2) && IsByte(v2)
    requires !IsClear(s1, v1) && !IsClear(s2, v2)
    requires Classify(h, s1, v1) in {DarkYellow, Orange, Brown}
    ensures Classify(h, s2, v2) == Classify(h, s1, v1)
  {
  }

  /** The band edges 10, 20, 40 and every hue from 70 up are unclassifiable unless clear. */
  lemma BoundaryHuesUnclassifiable(h: int, s: int, v: int)
    requires IsByte(h) && IsByte(s) && IsByte(v)
    requires !IsClear(s, v)
    requires h == 10 || h == 20 || h == 40 || h >= 70
    ensures Classify(h, s, v) == Unclassifiable
  {
  }

  // ---------------------------------------------------------------------------
  // An independent reading of the same decision: a table of rules, each a box
  // of open intervals over (h, s, v), consulted in order.

  /** The open interval lo < x < hi. */
  datatype Band = Band(lo: int, hi: int)

  predicate InBand(b: Band, x: int) { b.lo < x < b.hi }

  /** Every byte: an open interval with no effective bound. */
  const AnyByte := Band(-1, 256)

  datatype Rule = Rule(hue: Band, sat: Band, val: Band, verdict: Label)

  predicate Matches(r: Rule, h: int, s: int, v: int)
  {
    InBand(r.hue, h) && InBand(r.sat, s) && InBand(r.val, v)
  }

  /** The rules of the classifier in the order the source tests them. */
  function Rules(): seq<Rule>
  {
    [ Rule(AnyByte, Band(-1, 30), Band(220, 256), Clear),
      Rule(Band(40, 70), Band(100, 256), AnyByte, PaleYellow),
      Rule(Band(20, 40), AnyByte, AnyByte, DarkYellow),
      Rule(Band(10, 20), AnyByte, AnyByte, Orange),
      Rule(Band(-1, 10), AnyByte, AnyByte, Brown) ]
  }

  /** The label of the first rule that matches; the fallback when none does. */
  function FirstMatch(rules: seq<Rule>, h: int, s: int, v: int): Label
  {
    if |rules| == 0 then Unclassifiable
    else if Matches(rules[0], h, s, v) then rules[0].verdict
    else FirstMatch(rules[1..], h, s, v)
  }

  /** The if/elif chain is the first-match reading of the rule table. */
  lemma ClassifyIsFirstMatch(h: int, s: int, v: int)
    requires IsByte(h) && IsByte(s) && IsByte(v)
    ensures Classify(h, s, v) == FirstMatch(Rules(), h, s, v)
  {
    var rs := Rules();
    assert rs[4..][1..] == [];
    assert FirstMatch(rs[4..], h, s, v) == if h < 10 then Brown else Unclassifiable;
    assert rs[3..][1..] == rs[4..];
    assert FirstMatch(rs[3..], h, s, v) == if 10 < h < 20 then Orange else FirstMatch(rs[4..], h, s, v);
    assert rs[2..][1..] == rs[3..];
    assert FirstMatch(rs[2..], h, s, v) == if 20 < h < 40 then DarkYellow else FirstMatch(rs[3..], h, s, v);
    assert rs[1..][1..] == rs[2..];
    assert FirstMatch(rs[1..], h, s, v) ==
      if 40 < h < 70 && s > 100 then PaleYellow else FirstMatch(rs[2..], h, s, v);
  }

  /** No byte triple matches two of the four hue rules (indices 1 to 4). */
  lemma HueRulesDisjoint(i: int, j: int, h: int, s: int, v: int)
    requires 1 <= i < j < |Rules()|
    requires IsByte(h) && IsByte(s) && IsByte(v)
    ensures !(Matches(Rules()[i], h, s, v) && Matches(Rules()[j], h, s, v))
  {
  }

  /**
   * When every rule of a table that matches the input is one and the same
   * rule r, first-match evaluation returns r's verdict if r is in the table
   * and matches, and the fallback otherwise, wherever r stands.
   */
  lemma {:induction false} FirstMatchSingleRule(rules: seq<Rule>, r: Rule, h: int, s: int, v: int)
    requires forall j :: 0 <= j < |rules| && Matches(rules[j], h, s, v) ==> rules[j] == r
    ensures FirstMatch(rules, h, s, v) == if r in rules && Matches(r, h, s, v) then r.verdict else Unclassifiable
  {
    if |rules| > 0 && !Matches(rules[0], h, s, v) {
      var tail := rules[1..];
      forall j | 0 <= j < |tail| && Matches(tail[j], h, s, v) ensures tail[j] == r {
        assert tail[j] == rules[j + 1];
      }
      FirstMatchSingleRule(tail, r, h, s, v);
      assert rules == [rules[0]] + tail;
      assert r in rules && Matches(r, h, s, v) <==> r in tail && Matches(r, h, s, v);
    }
  }

  /**
   * The four hue tests may be made in any order: a table that keeps the
   * "clear" rule first and holds the four hue rules in any arrangement
   * classifies every byte triple exactly as the classifier does.
   */
  lemma HueRuleOrderIrrelevant(rules: seq<Rule>, h: int, s: int, v: int)
    requires |rules| == |Rules()| && rules[0] == Rules()[0]
    requires multiset(rules[1..]) == multiset(Rules()[1..])
    requires IsByte(h) && IsByte(s) && IsByte(v)
    ensures FirstMatch(rules, h, s, v) == Classify(h, s, v)
  {
    ClassifyIsFirstMatch(h, s, v);
    if !Matches(Rules()[0], h, s, v) {
      var hue := Rules()[1..];
      var tail := rules[1..];
      // the one hue rule that can match this input
      var r := if Matches(hue[0], h, s, v) then hue[0]
               else if Matches(hue[1], h, s, v) then hue[1]
               else if Matches(hue[2], h, s, v) then hue[2]
               else hue[3];
      forall j | 0 <= j < |hue| && Matches(hue[j], h, s, v) ensures hue[j] == r {
        HueRulesDisjoint(1, 2, h, s, v);
        HueRulesDisjoint(1, 3, h, s, v);
        HueRulesDisjoint(1, 4, h, s, v);
        HueRulesDisjoint(2, 3, h, s, v);
        HueRulesDisjoint(2, 4, h, s, v);
        HueRulesDisjoint(3, 4, h, s, v);
      }
      forall j | 0 <= j < |tail| && Matches(tail[j], h, s, v) ensures tail[j] == r {
        assert tail[j] in multiset(tail);
        assert tail[j] in hue;
      }
      assert r in hue;
      assert r in multiset(hue);
      assert r in tail;
      FirstMatchSingleRule(hue, r, h, s, v);
      FirstMatchSingleRule(tail, r, h, s, v);
      assert Rules()[1..] == hue && rules[1..] == tail;
    }
  }
}
