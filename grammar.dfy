/** The line recogniser: the one regular expression `parseInput` compiles,
    `(\d+),((\d+)|(\s*)),(((\d+,?)+)|(U|I))`, written out by hand together with
    `Matcher.find`, which takes the leftmost start position at which the pattern
    matches and ignores whatever text follows the match. */
module LineGrammar {
  import opened Model
  import opened Decimal

  /** The payload group: a data list (group 6, split at its commas) or an operator
      (group 8). */
  datatype Payload = DataList(values: seq<nat>) | Oper(op: Operation)

  /** The fields `parseInput` takes out of a match: group 1 as the id, group 3 as
      the parent id (None when group 4, the root marker, matched instead) and the
      payload. */
  datatype Fields = Fields(id: nat, parent: Option<nat>, payload: Payload)

  /** A match: where `find` started it and what it extracted. */
  datatype Match = Match(start: nat, fields: Fields)

  /** `\s` in a Java pattern: space, tab, newline, vertical tab, form feed, return. */
  predicate IsSpace(c: char) {
    c == ' ' || c == '\t' || c == '\n' || c == '\r' || c as int == 11 || c as int == 12
  }

  /** The end of the longest run of digits starting at `i` (`\d+` is greedy, and no
      part of the pattern after a digit run can begin with a digit). */
  function DigitsEnd(s: string, i: nat): (j: nat)
    requires i <= |s|
    ensures i <= j <= |s| && AllDigits(s[i..j])
    ensures j == |s| || !IsDigit(s[j])
    decreases |s| - i
  {
    if i < |s| && IsDigit(s[i]) then DigitsEnd(s, i + 1) else i
  }

  /** The end of the longest run of whitespace starting at `i` (`\s*`). */
  function SpacesEnd(s: string, i: nat): (j: nat)
    requires i <= |s|
    ensures i <= j <= |s| && forall k :: i <= k < j ==> IsSpace(s[k])
    ensures j == |s| || !IsSpace(s[j])
    decreases |s| - i
  {
    if i < |s| && IsSpace(s[i]) then SpacesEnd(s, i + 1) else i
  }

  /** The numbers of group 6, `(\d+,?)+` matched greedily from a digit at `i`: a
      digit run, and after each comma that is followed by a digit, the next run. A
      trailing comma is part of the group but `split(",")` drops the empty piece. */
  function DataValues(s: string, i: nat): (vs: seq<nat>)
    requires i < |s| && IsDigit(s[i])
    ensures |vs| > 0
    decreases |s| - i
  {
    var j := DigitsEnd(s, i);
    var v := Value(s[i..j]);
    if j + 1 < |s| && s[j] == ',' && IsDigit(s[j + 1]) then [v] + DataValues(s, j + 1) else [v]
  }

  /** The payload alternative at `r`: a data list when a digit stands there, else
      the letter `U` or `I`; anything else fails. */
  function PayloadAt(s: string, r: nat): Option<Payload>
    requires r <= |s|
  {
    if r < |s| && IsDigit(s[r]) then Some(DataList(DataValues(s, r)))
    else if r < |s| && s[r] == 'U' then Some(Oper(Union))
    else if r < |s| && s[r] == 'I' then Some(Oper(Intersect))
    else None
  }

  /** The pattern anchored at `i`. From a fixed start the match is deterministic:
      every backtracking alternative would need a digit or a space to equal a comma. */
  function MatchAt(s: string, i: nat): Option<Fields>
    requires i <= |s|
  {
    if i < |s| && IsDigit(s[i]) then
      var a := DigitsEnd(s, i);
      if a < |s| && s[a] == ',' then
        var p := a + 1;
        var parentDigits := p < |s| && IsDigit(s[p]);
        var q := if parentDigits then DigitsEnd(s, p) else SpacesEnd(s, p);
        var parent := if parentDigits then Some(Value(s[p..q])) else None;
        if q < |s| && s[q] == ',' then
          match PayloadAt(s, q + 1)
          case Some(pl) => Some(Fields(Value(s[i..a]), parent, pl))
          case None => None
        else None
      else None
    else None
  }

  /** `find()` from position `i`: the leftmost start at which the pattern matches. */
  function FindFrom(s: string, i: nat): (r: Option<Match>)
    requires i <= |s|
    ensures r.Some? ==> i <= r.value.start <= |s| && MatchAt(s, r.value.start) == Some(r.value.fields)
    ensures r.Some? ==> forall j :: i <= j < r.value.start ==> MatchAt(s, j).None?
    ensures r.None? ==> forall j :: i <= j <= |s| ==> MatchAt(s, j).None?
    decreases |s| - i
  {
    match MatchAt(s, i)
    case Some(f) => Some(Match(i, f))
    case None => if i == |s| then None else FindFrom(s, i + 1)
  }

  /** `regex.matcher(line).find()`. */
  function Find(s: string): Option<Fields> {
    var m := FindFrom(s, 0);
    if m.Some? then Some(m.value.fields) else None
  }

  /** `find` succeeds exactly when the pattern matches at some start, and then it
      reports the match at the leftmost such start. */
  lemma FindIsLeftmost(s: string)
    ensures Find(s).Some? <==> exists j :: 0 <= j <= |s| && MatchAt(s, j).Some?
    ensures Find(s).Some? ==> exists j :: 0 <= j <= |s| && MatchAt(s, j) == Find(s) &&
                                          forall k :: 0 <= k < j ==> MatchAt(s, k).None?
  {
    var m := FindFrom(s, 0);
    if m.Some? {
      assert MatchAt(s, m.value.start) == Find(s);
    }
  }

  /** The canonical text of a line: the numbers written without leading zeros, no
      whitespace for the root marker, data items separated by single commas. */
  function LineText(f: Fields): string {
    NatToString(f.id) + "," + ParentText(f.parent) + "," + PayloadText(f.payload)
  }

  function ParentText(p: Option<nat>): string {
    if p.Some? then NatToString(p.value) else ""
  }

  function PayloadText(p: Payload): string {
    match p
    case DataList(vs) => JoinedNumbers(vs)
    case Oper(Union) => "U"
    case Oper(Intersect) => "I"
  }

  function JoinedNumbers(vs: seq<nat>): string {
    if vs == [] then "" else if |vs| == 1 then NatToString(vs[0])
    else NatToString(vs[0]) + "," + JoinedNumbers(vs[1..])
  }

  /** A maximal digit run is found where it ends. */
  lemma {:induction false} DigitsEndIs(s: string, i: nat, j: nat)
    requires i <= j <= |s| && AllDigits(s[i..j]) && (j == |s| || !IsDigit(s[j]))
    ensures DigitsEnd(s, i) == j
    decreases j - i
  {
    if i < j {
      assert IsDigit(s[i..j][0]);
      assert s[i + 1..j] == s[i..j][1..];
      DigitsEndIs(s, i + 1, j);
    }
  }

  /** A written number starting at `i` and not followed by a digit is read back. */
  lemma NumberAt(s: string, i: nat, n: nat)
    requires i + |NatToString(n)| <= |s| && s[i..i + |NatToString(n)|] == NatToString(n)
    requires i + |NatToString(n)| == |s| || !IsDigit(s[i + |NatToString(n)|])
    ensures DigitsEnd(s, i) == i + |NatToString(n)| && Value(s[i..DigitsEnd(s, i)]) == n
  {
    DigitsEndIs(s, i, i + |NatToString(n)|);
    ValueOfNatToString(n);
  }

  /** Group 6 gives back every number of a joined list that runs to the end of the line. */
  lemma {:induction false} DataValuesOfJoined(s: string, i: nat, vs: seq<nat>)
    requires vs != [] && i < |s| && s[i..] == JoinedNumbers(vs)
    ensures IsDigit(s[i]) && DataValues(s, i) == vs
    decreases |vs|
  {
    var j := HeadNumber(s, i, vs);
    if |vs| == 1 {
      DataValuesStep(s, i, j);
      assert DataValues(s, i) == [vs[0]];
    } else {
      RestJoined(s, i, vs, j);
      var k, rest := j + 1, vs[1..];
      DataValuesOfJoined(s, k, rest);
      DataValuesCons(s, i, j, k, vs, rest);
    }
  }

  /** Group 6 at a number followed by a comma and further numbers. */
  lemma DataValuesCons(s: string, i: nat, j: nat, k: nat, vs: seq<nat>, rest: seq<nat>)
    requires |vs| > 1 && i < |s| && IsDigit(s[i]) && j == DigitsEnd(s, i) && Value(s[i..j]) == vs[0]
    requires k == j + 1 && k < |s| && s[j] == ',' && IsDigit(s[k])
    requires rest == vs[1..] && DataValues(s, k) == rest
    ensures DataValues(s, i) == vs
  {
    DataValuesStep(s, i, j);
    assert DataValues(s, i) == [vs[0]] + vs[1..];
  }

  /** The first number of a joined list: read back up to `j`, where the line ends or
      a comma and a digit follow. */
  lemma HeadNumber(s: string, i: nat, vs: seq<nat>) returns (j: nat)
    requires vs != [] && i < |s| && s[i..] == JoinedNumbers(vs)
    ensures IsDigit(s[i]) && j == DigitsEnd(s, i) && j == i + |NatToString(vs[0])| && Value(s[i..j]) == vs[0]
    ensures |vs| == 1 ==> j == |s|
    ensures |vs| > 1 ==> j + 1 < |s| && s[j] == ',' && IsDigit(s[j + 1])
  {
    var w := NatToString(vs[0]);
    j := i + |w|;
    var tail := if |vs| == 1 then "" else "," + JoinedNumbers(vs[1..]);
    assert s[i..] == w + tail;
    SliceOfConcat(s, i, w, tail);
    NumberAt(s, i, vs[0]);
    if |vs| > 1 {
      RestJoined(s, i, vs, j);
      JoinedStartsWithDigit(vs[1..]);
      assert s[j + 1] == s[j + 1..][0];
    }
  }

  /** After the first number and its comma, the rest of the list. */
  lemma RestJoined(s: string, i: nat, vs: seq<nat>, j: nat)
    requires |vs| > 1 && i < |s| && s[i..] == JoinedNumbers(vs) && j == i + |NatToString(vs[0])|
    ensures j + 1 <= |s| && s[j] == ',' && s[j + 1..] == JoinedNumbers(vs[1..])
  {
    var w := NatToString(vs[0]);
    var tail := "," + JoinedNumbers(vs[1..]);
    assert s[i..] == w + tail;
    SliceOfConcat(s, i, w, tail);
    assert s[j + 1..] == s[j..][1..];
  }

  lemma JoinedStartsWithDigit(vs: seq<nat>)
    requires vs != []
    ensures |JoinedNumbers(vs)| > 0 && IsDigit(JoinedNumbers(vs)[0])
  {
    var w := NatToString(vs[0]);
    assert JoinedNumbers(vs)[0] == w[0];
  }

  /** One step of group 6: the run at `i`, then the rest after a comma and a digit. */
  lemma DataValuesStep(s: string, i: nat, j: nat)
    requires i < |s| && IsDigit(s[i]) && j == DigitsEnd(s, i)
    ensures j + 1 < |s| && s[j] == ',' && IsDigit(s[j + 1]) ==>
              DataValues(s, i) == [Value(s[i..j])] + DataValues(s, j + 1)
    ensures !(j + 1 < |s| && s[j] == ',' && IsDigit(s[j + 1])) ==> DataValues(s, i) == [Value(s[i..j])]
  {
  }

  /** Where a suffix of `s` is `u + v`, the pieces can be read off `s` directly. */
  lemma SliceOfConcat(s: string, i: nat, u: string, v: string)
    requires i <= |s| && s[i..] == u + v
    ensures s[i..i + |u|] == u && s[i + |u|..] == v
    ensures |u| > 0 ==> s[i] == u[0]
    ensures |v| > 0 ==> s[i + |u|] == v[0]
  {
    assert |u| > 0 ==> s[i] == s[i..][0];
    assert |v| > 0 ==> s[i + |u|] == s[i..][|u|];
  }

  /** The payload alternative reads back a canonical payload that runs to the end. */
  lemma PayloadAtText(s: string, r: nat, pl: Payload)
    requires pl.DataList? ==> pl.values != []
    requires r < |s| && s[r..] == PayloadText(pl)
    ensures PayloadAt(s, r) == Some(pl)
  {
    match pl
    case DataList(vs) =>
      DataValuesOfJoined(s, r, vs);
    case Oper(op) =>
      assert s[r] == s[r..][0];
  }

  /** The pattern at 0 once its pieces are located: the id run ends at `a` before a
      comma, the parent field ends at `q` before a comma, and the payload follows. */
  lemma MatchAtPieces(s: string, a: nat, q: nat, parent: Option<nat>, pl: Payload)
    requires 0 < a < q < |s| && IsDigit(s[0]) && DigitsEnd(s, 0) == a && s[a] == ',' && s[q] == ','
    requires parent.Some? ==> IsDigit(s[a + 1]) && DigitsEnd(s, a + 1) == q && Value(s[a + 1..q]) == parent.value
    requires parent.None? ==> q == a + 1
    requires PayloadAt(s, q + 1) == Some(pl)
    ensures MatchAt(s, 0) == Some(Fields(Value(s[0..a]), parent, pl))
  {
    if parent.None? {
      assert !IsDigit(s[a + 1]) && SpacesEnd(s, a + 1) == a + 1;
    }
  }

  /** Round trip: the recogniser reads back every canonical line it could be given. */
  lemma MatchLineText(f: Fields)
    requires f.payload.DataList? ==> f.payload.values != []
    ensures MatchAt(LineText(f), 0) == Some(f)
    ensures Find(LineText(f)) == Some(f)
  {
    var s := LineText(f);
    var u, v, w := NatToString(f.id), ParentText(f.parent), PayloadText(f.payload);
    var a := |u|;
    var q := a + 1 + |v|;
    var r := q + 1;
    IdPiece(s, u, v, w, f.id, a, q);
    ParentPiece(s, u, v, w, f.parent, a, q);
    PayloadPiece(s, u, v, w, f.payload, r);
    MatchAtPieces(s, a, q, f.parent, f.payload);
  }

  lemma IdPiece(s: string, u: string, v: string, w: string, id: nat, a: nat, q: nat)
    requires s == u + "," + v + "," + w && u == NatToString(id) && a == |u| && q == a + 1 + |v|
    ensures 0 < a < q < |s| && IsDigit(s[0]) && DigitsEnd(s, 0) == a
    ensures Value(s[0..a]) == id && s[a] == ',' && s[q] == ','
  {
    FourPieces(s, u, v, w);
    NumberAt(s, 0, id);
  }

  lemma ParentPiece(s: string, u: string, v: string, w: string, parent: Option<nat>, a: nat, q: nat)
    requires s == u + "," + v + "," + w && |u| > 0 && v == ParentText(parent) && a == |u| && q == a + 1 + |v|
    ensures parent.Some? ==> IsDigit(s[a + 1]) && DigitsEnd(s, a + 1) == q && Value(s[a + 1..q]) == parent.value
    ensures parent.None? ==> q == a + 1
  {
    FourPieces(s, u, v, w);
    if parent.Some? {
      NumberAt(s, a + 1, parent.value);
    }
  }

  lemma PayloadPiece(s: string, u: string, v: string, w: string, pl: Payload, r: nat)
    requires s == u + "," + v + "," + w && |u| > 0 && w == PayloadText(pl) && r == |u| + 1 + |v| + 1
    requires pl.DataList? ==> pl.values != []
    ensures PayloadAt(s, r) == Some(pl)
  {
    FourPieces(s, u, v, w);
    PayloadAtText(s, r, pl);
  }

  lemma FourPieces(s: string, u: string, v: string, w: string)
    requires s == u + "," + v + "," + w && |u| > 0
    ensures var a := |u|; var q := a + 1 + |v|;
            q < |s| && s[0] == u[0] && s[0..a] == u && s[a] == ',' &&
            s[a + 1..q] == v && (|v| > 0 ==> s[a + 1] == v[0]) &&
            s[q] == ',' && s[q + 1..] == w
  {
    var a := |u|;
    var q := a + 1 + |v|;
    assert s[0..a] == u;
    assert s[a + 1..q] == v;
    assert s[q + 1..] == w;
  }
}
