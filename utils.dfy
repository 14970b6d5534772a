/** Route label normalisation (src/utils.ts, getLineInfo): the colour and the short
    text shown for a route identifier. */
module Utils {
  import opened Types

  datatype LineInfo = LineInfo(color: string, text: string)

  /** The colour of an unknown or missing route. */
  const MissingColor: string := "#333333"
  /** The colour of any route that is not one of the three tram lines. */
  const BusColor: string := "#f59e0b"

  /** The tram lines, each under its `T` name and its bare number. */
  const Colors: map<string, string> := map[
    "T1" := "#e20613", "T2" := "#009ee0", "T3" := "#80c342",
    "1" := "#e20613", "2" := "#009ee0", "3" := "#80c342"]

  function Zeros(n: nat): (z: string)
    ensures |z| == n && forall i :: 0 <= i < n ==> z[i] == '0'
  {
    seq(n, _ => '0')
  }

  /** `routeId.replace(/^0+/, '')`. */
  function StripLeadingZeros(s: string): (r: string)
    ensures r == "" || r[0] != '0'
    ensures |r| <= |s|
  {
    if s != [] && s[0] == '0' then StripLeadingZeros(s[1..]) else s
  }

  /** What was stripped is zeros only. */
  lemma {:induction false} StrippedZeros(s: string)
    ensures s == Zeros(|s| - |StripLeadingZeros(s)|) + StripLeadingZeros(s)
  {
    if s != [] && s[0] == '0' {
      StrippedZeros(s[1..]);
      var r := StripLeadingZeros(s);
      assert s == [s[0]] + s[1..];
      assert Zeros(|s| - |r|) == [s[0]] + Zeros(|s| - 1 - |r|);
    } else {
      assert s == Zeros(0) + s;
    }
  }

  /** `getLineInfo(routeId)`. */
  function GetLineInfo(routeId: Option<string>): (info: LineInfo)
    ensures info.text == "?" || info.text == "" || info.text[0] != '0'
  {
    if routeId.None? || routeId.value == "" then LineInfo(MissingColor, "?")
    else
      var id := StripLeadingZeros(routeId.value);
      if id in Colors then
        LineInfo(Colors[id], if |id| > 0 && id[0] == 'T' then id else "T" + id)
      else LineInfo(BusColor, id)
  }

  /** An absent or empty route identifier gets the neutral colour and a question mark. */
  lemma MissingRoute(routeId: Option<string>)
    requires routeId.None? || routeId.value == ""
    ensures GetLineInfo(routeId) == LineInfo("#333333", "?")
  {
  }

  lemma {:induction false} StripZerosPrefix(n: nat, s: string)
    requires s != "" && s[0] != '0'
    ensures StripLeadingZeros(Zeros(n) + s) == s
  {
    if n > 0 {
      assert (Zeros(n) + s)[1..] == Zeros(n - 1) + s;
      StripZerosPrefix(n - 1, s);
    }
  }

  /** Leading zeros play no part: "001", "01" and "1" are the same route. */
  lemma LeadingZerosIgnored(n: nat, s: string)
    requires s != ""
    ensures GetLineInfo(Some(Zeros(n) + s)) == GetLineInfo(Some(s))
  {
    var r := StripLeadingZeros(s);
    StrippedZeros(s);
    if r == "" {
      StripAllZeros(n + |s|);
      assert Zeros(n) + s == Zeros(n + |s|);
    } else {
      assert Zeros(n) + s == Zeros(n + |s| - |r|) + r;
      StripZerosPrefix(n + |s| - |r|, r);
    }
  }

  lemma {:induction false} StripAllZeros(n: nat)
    ensures StripLeadingZeros(Zeros(n)) == ""
  {
    if n > 0 {
      assert Zeros(n)[1..] == Zeros(n - 1);
      StripAllZeros(n - 1);
    }
  }

  /** The three tram lines are told apart by their colour, and each is shown as `T`
      followed by its number, whether or not the identifier carried the `T`. */
  lemma TramLines(routeId: string)
    requires routeId != ""
    ensures var id, info := StripLeadingZeros(routeId), GetLineInfo(Some(routeId));
      && (info.color == "#e20613" <==> id == "1" || id == "T1")
      && (info.color == "#009ee0" <==> id == "2" || id == "T2")
      && (info.color == "#80c342" <==> id == "3" || id == "T3")
      && (id == "1" || id == "T1" ==> info.text == "T1")
      && (id == "2" || id == "T2" ==> info.text == "T2")
      && (id == "3" || id == "T3" ==> info.text == "T3")
  {
    var id := StripLeadingZeros(routeId);
    assert "T" + "1" == "T1" && "T" + "2" == "T2" && "T" + "3" == "T3";
  }

  /** Every other identifier is drawn as a bus, labelled with its identifier without
      the leading zeros ("000" is labelled with the empty text). */
  lemma OtherRoutes(routeId: string)
    requires routeId != "" && StripLeadingZeros(routeId) !in Colors
    ensures GetLineInfo(Some(routeId)) == LineInfo("#f59e0b", StripLeadingZeros(routeId))
  {
  }

  lemma Examples()
    ensures GetLineInfo(Some("01")) == GetLineInfo(Some("T1")) == LineInfo("#e20613", "T1")
    ensures GetLineInfo(Some("000")) == LineInfo("#f59e0b", "")
    ensures GetLineInfo(Some("012")) == LineInfo("#f59e0b", "12")
  {
    assert StripLeadingZeros("01") == "1" by {
      assert "01"[1..] == "1";
    }
    assert "T" + "1" == "T1";
    StripAllZeros(3);
    assert Zeros(3) == "000";
    assert StripLeadingZeros("012") == "12" by {
      assert "012"[1..] == "12";
    }
  }
}
