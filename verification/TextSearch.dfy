/** The searches of std::string the audit code relies on; -1 stands for npos. */
module TextSearch {

  predicate OccursAt(s: string, pat: string, i: int) {
    0 <= i && i + |pat| <= |s| && s[i..i + |pat|] == pat
  }

  /** `part` stands somewhere in `s`. */
  ghost predicate StandsIn(s: string, part: string) { exists a, b :: s == a + part + b }

  /** std::string::rfind: the last place `pat` occurs. */
  function RFind(s: string, pat: string): (r: int)
    ensures r == -1 || OccursAt(s, pat, r)
    ensures forall i :: r < i ==> !OccursAt(s, pat, i)
  {
    RFindFrom(s, pat, |s| - |pat|)
  }

  function RFindFrom(s: string, pat: string, start: int): (r: int)
    requires start <= |s| - |pat|
    ensures r == -1 || OccursAt(s, pat, r)
    ensures forall i :: r < i <= start ==> !OccursAt(s, pat, i)
    decreases start + 1
  {
    if start < 0 then -1
    else if OccursAt(s, pat, start) then start
    else RFindFrom(s, pat, start - 1)
  }

  /** std::string::find of one character from a position on. */
  function FindChar(s: string, c: char, start: nat): (r: int)
    ensures r == -1 || (start <= r < |s| && s[r] == c)
    ensures forall i :: start <= i < (if r == -1 then |s| else r) ==> s[i] != c
    decreases |s| - start
  {
    if start >= |s| then -1
    else if s[start] == c then start
    else FindChar(s, c, start + 1)
  }

  lemma RFindIs(s: string, pat: string, at: int)
    requires OccursAt(s, pat, at)
    requires forall i :: at < i ==> !OccursAt(s, pat, i)
    ensures RFind(s, pat) == at
  {
  }

  lemma FindCharIs(s: string, c: char, start: nat, at: int)
    requires start <= at < |s| && s[at] == c
    requires forall i :: start <= i < at ==> s[i] != c
    ensures FindChar(s, c, start) == at
  {
  }

  /** Successive std::getline calls: a last piece without newline still counts. */
  function GetLines(data: string): seq<string>
    decreases |data|
  {
    if data == "" then []
    else
      var nl := FindChar(data, '\n', 0);
      if nl == -1 then [data] else [data[..nl]] + GetLines(data[nl + 1..])
  }

  predicate EndsLine(data: string) {
    data == "" || data[|data| - 1] == '\n'
  }

  lemma {:induction false} GetLinesAppend(data: string, more: string)
    requires EndsLine(data)
    ensures GetLines(data + more) == GetLines(data) + GetLines(more)
    decreases |data|
  {
    if data == "" {
      assert data + more == more;
    } else {
      var nl := FindChar(data, '\n', 0);
      assert nl != -1 by { assert data[|data| - 1] == '\n'; }
      var head, rest := data[..nl], data[nl + 1..];
      FirstLineOf(data, more, nl);
      GetLinesAppend(rest, more);
      assert [head] + (GetLines(rest) + GetLines(more)) == ([head] + GetLines(rest)) + GetLines(more);
    }
  }

  lemma FirstLineOf(data: string, more: string, nl: int)
    requires 0 <= nl == FindChar(data, '\n', 0)
    ensures GetLines(data + more) == [data[..nl]] + GetLines(data[nl + 1..] + more)
  {
    FindCharIs(data + more, '\n', 0, nl);
    assert (data + more)[nl + 1..] == data[nl + 1..] + more;
    assert (data + more)[..nl] == data[..nl];
  }

  lemma GetLinesOne(line: string)
    requires '\n' !in line
    ensures GetLines(line + "\n") == [line]
  {
    var data := line + "\n";
    FindCharIs(data, '\n', 0, |line|);
    assert data[|line| + 1..] == "";
    assert data[..|line|] == line;
  }
}
