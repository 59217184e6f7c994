/**
 * findConstantTerm once the JSON document is read: the object's members, in
 * iteration order, become points (the "keys" member skipped, x parsed from
 * the member's name, y decoded from its base and value), the first k points
 * are selected with subList(0, k), and the selection is interpolated at 0.
 */
module Shares {
  import opened Results
  import opened Radix
  import opened Points
  import opened Polynomials
  import opened Lagrange

  /** The name of the member holding n and k, which is not a share. */
  const KEYS: string := "keys"

  /** One member of the JSON object: its name and, for a share, its "base" and "value" fields. */
  datatype Entry = Entry(key: string, base: int, value: string)

  /**
   * Why findConstantTerm fails. The first three are exceptions in the source;
   * RepeatedX stands for the division by zero at a repeated x, where the
   * source returns Infinity or NaN instead of throwing.
   */
  datatype LoadError =
    | BadIndex(key: string, cause: ParseError)   // Integer.parseInt(key) throws
    | BadShare(key: string, cause: ParseError)   // convertToBase10(value, base) throws
    | BadThreshold(k: int, available: nat)       // subList(0, k) is out of bounds
    | RepeatedX                                  // two selected shares have the same x

  /** A share member's point: x from its name, then y from its base and value, in that order. */
  function DecodeEntry(e: Entry): Result<Point, LoadError>
  {
    var x := ParseInt(e.key);
    if x.Err? then Err(BadIndex(e.key, x.error))
    else
      var y := ConvertToBase10(e.value, e.base);
      if y.Err? then Err(BadShare(e.key, y.error))
      else Ok(Point(x.value, y.value))
  }

  /**
   * A member decodes iff its name is a decimal numeral whose value fits an int
   * and its value a numeral of its base whose value fits a long; the point is
   * then those two values. A bad name is reported before a bad value.
   */
  lemma DecodeEntryCases(e: Entry)
    ensures DecodeEntry(e).Ok? <==>
              IsNumeral(e.key, 10) && MIN_INT <= NumeralValue(e.key, 10) <= MAX_INT &&
              IsNumeral(e.value, e.base) && MIN_LONG <= NumeralValue(e.value, e.base) <= MAX_LONG
    ensures DecodeEntry(e).Ok? ==>
              DecodeEntry(e).value == Point(NumeralValue(e.key, 10), NumeralValue(e.value, e.base))
    ensures !(IsNumeral(e.key, 10) && MIN_INT <= NumeralValue(e.key, 10) <= MAX_INT) ==>
              ParseInt(e.key).Err? && DecodeEntry(e) == Err(BadIndex(e.key, ParseInt(e.key).error))
    ensures IsNumeral(e.key, 10) && MIN_INT <= NumeralValue(e.key, 10) <= MAX_INT &&
            !(IsNumeral(e.value, e.base) && MIN_LONG <= NumeralValue(e.value, e.base) <= MAX_LONG) ==>
              ConvertToBase10(e.value, e.base).Err? &&
              DecodeEntry(e) == Err(BadShare(e.key, ConvertToBase10(e.value, e.base).error))
  {
    ParseIntMeaning(e.key);
    ConvertToBase10Meaning(e.value, e.base);
  }

  /** The share members, in order: every member but "keys". */
  function ShareEntries(entries: seq<Entry>): (s: seq<Entry>)
    ensures |s| <= |entries|
    ensures forall e :: e in s <==> e in entries && e.key != KEYS
  {
    if |entries| == 0 then []
    else
      var init, e := entries[..|entries| - 1], entries[|entries| - 1];
      assert entries == init + [e];
      if e.key == KEYS then ShareEntries(init) else ShareEntries(init) + [e]
  }

  /** The points the loop of findConstantTerm builds, or the first member's failure. */
  function PointsOf(entries: seq<Entry>): Result<seq<Point>, LoadError>
  {
    if |entries| == 0 then Ok([])
    else
      var init, e := entries[..|entries| - 1], entries[|entries| - 1];
      var r := PointsOf(init);
      if r.Err? || e.key == KEYS then r
      else
        var p := DecodeEntry(e);
        if p.Err? then Err(p.error) else Ok(r.value + [p.value])
  }

  /** A successful build yields one point per share member, in order. */
  lemma {:induction false} PointsOfOk(entries: seq<Entry>)
    requires PointsOf(entries).Ok?
    ensures |PointsOf(entries).value| == |ShareEntries(entries)|
    ensures forall j :: 0 <= j < |ShareEntries(entries)| ==>
              DecodeEntry(ShareEntries(entries)[j]) == Ok(PointsOf(entries).value[j])
  {
    if |entries| > 0 {
      var init, e := entries[..|entries| - 1], entries[|entries| - 1];
      PointsOfOk(init);
      var s, v := ShareEntries(init), PointsOf(init).value;
      if e.key != KEYS {
        var t, w := ShareEntries(entries), PointsOf(entries).value;
        assert t == s + [e] && w == v + [DecodeEntry(e).value];
        forall j | 0 <= j < |t|
          ensures DecodeEntry(t[j]) == Ok(w[j])
        {
          if j < |s| {
            assert t[j] == s[j] && w[j] == v[j];
          }
        }
      }
    }
  }

  /** Dropping the last member keeps the share members before it. */
  lemma ShareEntriesInit(entries: seq<Entry>)
    requires |entries| > 0
    ensures ShareEntries(entries) ==
              var e := entries[|entries| - 1];
              ShareEntries(entries[..|entries| - 1]) + (if e.key == KEYS then [] else [e])
  {
    if entries[|entries| - 1].key == KEYS {
      assert ShareEntries(entries[..|entries| - 1]) + [] == ShareEntries(entries[..|entries| - 1]);
    }
  }

  /** A failed build reports the first share member that does not decode: its index is j. */
  lemma {:induction false} PointsOfErr(entries: seq<Entry>) returns (j: nat)
    requires PointsOf(entries).Err?
    ensures j < |ShareEntries(entries)|
    ensures DecodeEntry(ShareEntries(entries)[j]) == Err(PointsOf(entries).error)
    ensures forall i :: 0 <= i < j ==> DecodeEntry(ShareEntries(entries)[i]).Ok?
  {
    var init, e := entries[..|entries| - 1], entries[|entries| - 1];
    var s, t := ShareEntries(init), ShareEntries(entries);
    ShareEntriesInit(entries);
    assert t[..|s|] == s;
    if PointsOf(init).Err? {
      j := PointsOfErr(init);
      assert t[j] == s[j];
      assert forall i :: 0 <= i < j ==> t[i] == s[i];
    } else {
      PointsOfOk(init);
      j := |s|;
      assert forall i :: 0 <= i < |s| ==> t[i] == s[i];
    }
  }

  /**
   * The loop decodes exactly the share members: it succeeds iff each of them
   * decodes, then yields their points in order, and otherwise reports the
   * first share member that fails.
   */
  lemma PointsOfMeaning(entries: seq<Entry>)
    ensures PointsOf(entries).Ok? <==>
              forall j :: 0 <= j < |ShareEntries(entries)| ==> DecodeEntry(ShareEntries(entries)[j]).Ok?
    ensures PointsOf(entries).Ok? ==>
              |PointsOf(entries).value| == |ShareEntries(entries)| &&
              forall j :: 0 <= j < |ShareEntries(entries)| ==>
                DecodeEntry(ShareEntries(entries)[j]) == Ok(PointsOf(entries).value[j])
    ensures PointsOf(entries).Err? ==>
              exists j :: 0 <= j < |ShareEntries(entries)| &&
                DecodeEntry(ShareEntries(entries)[j]) == Err(PointsOf(entries).error) &&
                forall i :: 0 <= i < j ==> DecodeEntry(ShareEntries(entries)[i]).Ok?
  {
    if PointsOf(entries).Ok? {
      PointsOfOk(entries);
    } else {
      var j := PointsOfErr(entries);
    }
  }

  /** Building from a + b is building from a, then from b, and a failure in a stops everything. */
  lemma {:induction false} PointsOfAppend(a: seq<Entry>, b: seq<Entry>)
    ensures PointsOf(a).Err? ==> PointsOf(a + b) == PointsOf(a)
    ensures PointsOf(a).Ok? && PointsOf(b).Ok? ==> PointsOf(a + b) == Ok(PointsOf(a).value + PointsOf(b).value)
    ensures PointsOf(a).Ok? && PointsOf(b).Err? ==> PointsOf(a + b) == PointsOf(b)
    decreases |b|
  {
    if |b| == 0 {
      assert a + b == a;
      if PointsOf(a).Ok? {
        assert PointsOf(a).value + [] == PointsOf(a).value;
      }
    } else {
      var init, e := b[..|b| - 1], b[|b| - 1];
      PointsOfAppend(a, init);
      assert (a + b)[..|a + b| - 1] == a + init;
      assert (a + b)[|a + b| - 1] == e;
      if PointsOf(a).Ok? && PointsOf(b).Ok? && e.key != KEYS {
        var u, v := PointsOf(a).value, PointsOf(init).value;
        assert u + v + [DecodeEntry(e).value] == u + (v + [DecodeEntry(e).value]);
      }
    }
  }

  /** The "keys" member contributes nothing, wherever it stands. */
  lemma KeysSkipped(a: seq<Entry>, b: seq<Entry>, base: int, value: string)
    ensures PointsOf(a + [Entry(KEYS, base, value)] + b) == PointsOf(a + b)
  {
    var keys := Entry(KEYS, base, value);
    assert PointsOf([keys]) == Ok([]) by {
      assert [keys][..0] == [];
    }
    PointsOfAppend(a, [keys]);
    PointsOfAppend(a + [keys], b);
    PointsOfAppend(a, b);
    if PointsOf(a).Ok? {
      assert PointsOf(a).value + [] == PointsOf(a).value;
    }
  }

  /** The loop over the object's members, appending one point per share member. */
  method BuildPoints(entries: seq<Entry>) returns (r: Result<seq<Point>, LoadError>)
    ensures r == PointsOf(entries)
  {
    var points: seq<Point> := [];
    for i := 0 to |entries|
      invariant PointsOf(entries[..i]) == Ok(points)
    {
      var entry := entries[i];
      assert entries[..i + 1][..i] == entries[..i];
      if entry.key == KEYS {
        continue;
      }
      var x := ParseInt(entry.key);
      if x.Err? {
        r := Err(BadIndex(entry.key, x.error));
        PointsOfAppend(entries[..i + 1], entries[i + 1..]);
        assert entries[..i + 1] + entries[i + 1..] == entries;
        return;
      }
      var y := ConvertToBase10(entry.value, entry.base);
      if y.Err? {
        r := Err(BadShare(entry.key, y.error));
        PointsOfAppend(entries[..i + 1], entries[i + 1..]);
        assert entries[..i + 1] + entries[i + 1..] == entries;
        return;
      }
      points := points + [Point(x.value, y.value)];
    }
    assert entries[..|entries|] == entries;
    r := Ok(points);
  }

  /** subList(0, k): the first k points, or an error when k is negative or exceeds the count. */
  function SelectFirst(points: seq<Point>, k: int): (r: Result<seq<Point>, LoadError>)
    ensures r.Ok? <==> 0 <= k <= |points|
    ensures r.Ok? ==> |r.value| == k && forall i :: 0 <= i < k ==> r.value[i] == points[i]
    ensures r.Err? ==> r.error == BadThreshold(k, |points|)
  {
    if 0 <= k <= |points| then Ok(points[..k]) else Err(BadThreshold(k, |points|))
  }

  /** What findConstantTerm returns for the object's members and the threshold k. */
  function Reconstruct(entries: seq<Entry>, k: int): Result<real, LoadError>
  {
    var points := PointsOf(entries);
    if points.Err? then Err(points.error)
    else
      var selected := SelectFirst(points.value, k);
      if selected.Err? then Err(selected.error)
      else if !DistinctX(selected.value) then Err(RepeatedX)
      else Ok(ConstantTerm(selected.value))
  }

  /** Repeated x among the selected points: the source divides by zero there. */
  method CheckDistinctX(points: seq<Point>) returns (distinct: bool)
    ensures distinct <==> DistinctX(points)
  {
    for i := 0 to |points|
      invariant forall a, b :: 0 <= a < i && 0 <= b < |points| && a != b ==> points[a].x != points[b].x
    {
      for j := 0 to |points|
        invariant forall b :: 0 <= b < j && b != i ==> points[i].x != points[b].x
      {
        if i != j && points[i].x == points[j].x {
          return false;
        }
      }
    }
    return true;
  }

  /** findConstantTerm, after the document is read. */
  method FindConstantTerm(entries: seq<Entry>, k: int) returns (r: Result<real, LoadError>)
    ensures r == Reconstruct(entries, k)
  {
    var points := BuildPoints(entries);
    if points.Err? {
      return Err(points.error);
    }
    var selected := SelectFirst(points.value, k);
    if selected.Err? {
      return Err(selected.error);
    }
    var distinct := CheckDistinctX(selected.value);
    if !distinct {
      return Err(RepeatedX);
    }
    var secret := LagrangeInterpolation(selected.value);
    return Ok(secret);
  }

  /** When the first k shares lie on a polynomial of degree below k, the secret is its constant coefficient. */
  lemma ReconstructFindsSecret(entries: seq<Entry>, k: int, c: seq<real>)
    requires PointsOf(entries).Ok? && 0 <= k <= |PointsOf(entries).value|
    requires DistinctX(PointsOf(entries).value[..k]) && |c| <= k
    requires forall i :: 0 <= i < k ==>
               PointsOf(entries).value[i].y as real == Eval(c, PointsOf(entries).value[i].x as real)
    ensures Reconstruct(entries, k) == Ok(if |c| == 0 then 0.0 else c[0])
  {
    var selected := PointsOf(entries).value[..k];
    ConstantTermRecoversSecret(selected, c);
  }

  /** Shares after the first k never change the result. */
  lemma ReconstructIgnoresLaterShares(entries: seq<Entry>, more: seq<Entry>, k: int)
    requires PointsOf(entries).Ok? && PointsOf(more).Ok? && 0 <= k <= |PointsOf(entries).value|
    ensures Reconstruct(entries + more, k) == Reconstruct(entries, k)
  {
    PointsOfAppend(entries, more);
    var a, b := PointsOf(entries).value, PointsOf(more).value;
    assert PointsOf(entries + more) == Ok(a + b);
    assert (a + b)[..k] == a[..k];
    assert SelectFirst(a + b, k) == SelectFirst(a, k);
  }

  /** The first share member that does not decode is the error reported. */
  lemma ReconstructReportsFirstBadShare(entries: seq<Entry>, k: int, j: nat)
    requires j < |ShareEntries(entries)| && DecodeEntry(ShareEntries(entries)[j]).Err?
    requires forall i :: 0 <= i < j ==> DecodeEntry(ShareEntries(entries)[i]).Ok?
    ensures Reconstruct(entries, k) == Err(DecodeEntry(ShareEntries(entries)[j]).error)
  {
    PointsOfMeaning(entries);
    var s := ShareEntries(entries);
    var j' :| 0 <= j' < |s| && DecodeEntry(s[j']) == Err(PointsOf(entries).error) &&
              forall i :: 0 <= i < j' ==> DecodeEntry(s[i]).Ok?;
    assert j' == j;
  }

  /** Asking for more shares than there are, or a negative number, fails. */
  lemma ReconstructBadThreshold(entries: seq<Entry>, k: int)
    requires forall j :: 0 <= j < |ShareEntries(entries)| ==> DecodeEntry(ShareEntries(entries)[j]).Ok?
    requires k < 0 || k > |ShareEntries(entries)|
    ensures Reconstruct(entries, k) == Err(BadThreshold(k, |ShareEntries(entries)|))
  {
    PointsOfMeaning(entries);
  }

  /** Two selected share members whose names parse to the same x ("1" and "01", say) fail. */
  lemma ReconstructRepeatedX(entries: seq<Entry>, k: int, i: nat, j: nat)
    requires forall m :: 0 <= m < |ShareEntries(entries)| ==> DecodeEntry(ShareEntries(entries)[m]).Ok?
    requires k <= |ShareEntries(entries)| && i < k && j < k && i != j
    requires ParseInt(ShareEntries(entries)[i].key) == ParseInt(ShareEntries(entries)[j].key)
    ensures Reconstruct(entries, k) == Err(RepeatedX)
  {
    PointsOfMeaning(entries);
    var selected := PointsOf(entries).value[..k];
    assert selected[i].x == selected[j].x;
  }

  /** One more member: skipped when it is "keys", otherwise decoded and appended. */
  lemma PointsAppendOne(entries: seq<Entry>, e: Entry)
    ensures PointsOf(entries).Ok? && e.key == KEYS ==> PointsOf(entries + [e]) == PointsOf(entries)
    ensures PointsOf(entries).Ok? && e.key != KEYS && DecodeEntry(e).Ok? ==>
              PointsOf(entries + [e]) == Ok(PointsOf(entries).value + [DecodeEntry(e).value])
  {
    assert (entries + [e])[..|entries|] == entries;
  }

  /** The document with "keys" first and shares 1: "4" (base 10), 2: "111" (base 2), 3: "12" (base 10), 6: "213" (base 4). */
  function SampleEntries(): seq<Entry> {
    [Entry(KEYS, 0, ""), Entry("1", 10, "4"), Entry("2", 2, "111"), Entry("3", 10, "12"), Entry("6", 4, "213")]
  }

  lemma SampleDecodesFirst()
    ensures DecodeEntry(Entry("1", 10, "4")) == Ok(Point(1, 4))
  {
    assert "1"[..0] == "" && "4"[..0] == "";
    assert AllDigits("1", 10) && AllDigits("4", 10);
  }

  lemma SampleDecodesSecond()
    ensures DecodeEntry(Entry("2", 2, "111")) == Ok(Point(2, 7))
  {
    assert "2"[..0] == "" && AllDigits("2", 10);
    assert "111"[..2] == "11" && "11"[..1] == "1" && "1"[..0] == "";
    assert AllDigits("111", 2) by { assert "111"[0] == '1' && "111"[1] == '1' && "111"[2] == '1'; }
    assert AllDigits("11", 2) && AllDigits("1", 2);
    assert Horner("1", 2) == 1;
    assert Horner("11", 2) == 3;
    assert Horner("111", 2) == 7;
  }

  lemma SampleDecodesThird()
    ensures DecodeEntry(Entry("3", 10, "12")) == Ok(Point(3, 12))
  {
    assert "3"[..0] == "" && AllDigits("3", 10);
    assert "12"[..1] == "1" && "1"[..0] == "";
    assert AllDigits("12", 10) by { assert "12"[0] == '1' && "12"[1] == '2'; }
    assert AllDigits("1", 10);
    assert Horner("1", 10) == 1;
    assert Horner("12", 10) == 12;
  }

  lemma SampleDecodesFourth()
    ensures DecodeEntry(Entry("6", 4, "213")) == Ok(Point(6, 39))
  {
    assert "6"[..0] == "" && AllDigits("6", 10);
    assert "213"[..2] == "21" && "21"[..1] == "2" && "2"[..0] == "";
    assert AllDigits("213", 4) by { assert "213"[0] == '2' && "213"[1] == '1' && "213"[2] == '3'; }
    assert AllDigits("21", 4) && AllDigits("2", 4);
    assert Horner("2", 4) == 2;
    assert Horner("21", 4) == 9;
    assert Horner("213", 4) == 39;
  }

  /** Two share members that decode to p1 and p2. */
  lemma TwoShares(e1: Entry, e2: Entry, p1: Point, p2: Point)
    requires e1.key != KEYS && e2.key != KEYS
    requires DecodeEntry(e1) == Ok(p1) && DecodeEntry(e2) == Ok(p2)
    ensures PointsOf([e1, e2]) == Ok([p1, p2])
  {
    PointsAppendOne([], e1);
    assert [] + [e1] == [e1] && [] + [p1] == [p1];
    PointsAppendOne([e1], e2);
    assert [e1] + [e2] == [e1, e2] && [p1] + [p2] == [p1, p2];
  }

  /** "keys" followed by four share members that decode to p1 .. p4. */
  lemma KeysThenFourShares(k: Entry, e1: Entry, e2: Entry, e3: Entry, e4: Entry,
                           p1: Point, p2: Point, p3: Point, p4: Point)
    requires k.key == KEYS && e1.key != KEYS && e2.key != KEYS && e3.key != KEYS && e4.key != KEYS
    requires DecodeEntry(e1) == Ok(p1) && DecodeEntry(e2) == Ok(p2)
    requires DecodeEntry(e3) == Ok(p3) && DecodeEntry(e4) == Ok(p4)
    ensures PointsOf([k, e1, e2, e3, e4]) == Ok([p1, p2, p3, p4])
  {
    assert PointsOf([k]) == Ok([]) by {
      assert [k][..0] == [];
    }
    TwoShares(e1, e2, p1, p2);
    TwoShares(e3, e4, p3, p4);
    PointsOfAppend([k], [e1, e2]);
    assert [k] + [e1, e2] == [k, e1, e2] && [] + [p1, p2] == [p1, p2];
    PointsOfAppend([k, e1, e2], [e3, e4]);
    assert [k, e1, e2] + [e3, e4] == [k, e1, e2, e3, e4] && [p1, p2] + [p3, p4] == [p1, p2, p3, p4];
  }

  /** The sample's shares are (1, 4), (2, 7), (3, 12) and (6, 39), in member order. */
  lemma SamplePoints()
    ensures PointsOf(SampleEntries()) == Ok([Point(1, 4), Point(2, 7), Point(3, 12), Point(6, 39)])
  {
    SampleDecodesFirst();
    SampleDecodesSecond();
    SampleDecodesThird();
    SampleDecodesFourth();
    assert |KEYS| == 4;
    KeysThenFourShares(Entry(KEYS, 0, ""), Entry("1", 10, "4"), Entry("2", 2, "111"), Entry("3", 10, "12"),
                       Entry("6", 4, "213"), Point(1, 4), Point(2, 7), Point(3, 12), Point(6, 39));
  }

  /** (1, 4), (2, 7), (3, 12) lie on x² + 3. */
  lemma SampleSelectionSecret()
    ensures DistinctX([Point(1, 4), Point(2, 7), Point(3, 12)])
    ensures ConstantTerm([Point(1, 4), Point(2, 7), Point(3, 12)]) == 3.0
  {
    var c := [3.0, 0.0, 1.0];
    assert c[1..][1..][1..] == [];
    assert Eval(c, 1.0) == 4.0 && Eval(c, 2.0) == 7.0 && Eval(c, 3.0) == 12.0;
    ConstantTermRecoversSecret([Point(1, 4), Point(2, 7), Point(3, 12)], c);
  }

  /** Only the first three shares matter for k = 3: with (1, 4), (2, 7), (3, 12) first, the secret is 3. */
  lemma SecretOfSampleShares(entries: seq<Entry>, p: Point)
    requires PointsOf(entries) == Ok([Point(1, 4), Point(2, 7), Point(3, 12), p])
    ensures Reconstruct(entries, 3) == Ok(3.0)
  {
    var points := [Point(1, 4), Point(2, 7), Point(3, 12), p];
    assert points[..3] == [Point(1, 4), Point(2, 7), Point(3, 12)];
    SampleSelectionSecret();
  }

  /** The sample document, with k = 3, gives back the secret 3. */
  lemma SampleSecret()
    ensures Reconstruct(SampleEntries(), 3) == Ok(3.0)
  {
    SamplePoints();
    SecretOfSampleShares(SampleEntries(), Point(6, 39));
  }
}
