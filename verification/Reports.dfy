/** Stored reports, their leaves and the statistics recorded for report pairs. */
module Reports {

  datatype Leaf = Leaf(vaultAddress: string, totalValueWei: int, treeIndex: int)

  /** A report as published: `prevTreeCID` names the report before it. */
  datatype ReportData = ReportData(blockNumber: int, timestamp: int, prevTreeCID: string, values: seq<Leaf>)

  /** A stored report; `cid` is unique in the table and `id` its primary key. */
  datatype Report = Report(id: nat, cid: string, blockNumber: int, timestamp: int, prevTreeCID: string)

  /** Leaves of one report, unique per vault address. */
  type Leaves = map<string, Leaf>

  predicate IsSpace(c: char) {
    c == ' ' || c == '\t' || c == '\n' || c == '\r'
  }

  function TrimStart(s: string): (r: string)
    ensures r != [] ==> !IsSpace(r[0])
  {
    if s != [] && IsSpace(s[0]) then TrimStart(s[1..]) else s
  }

  function Trim(s: string): (r: string)
    ensures r != [] ==> !IsSpace(r[0]) && !IsSpace(r[|r| - 1])
    decreases |s|
  {
    var t := TrimStart(s);
    if t != [] && IsSpace(t[|t| - 1]) then TrimEnd(t) else t
  }

  function TrimEnd(s: string): (r: string)
    ensures r != [] ==> !IsSpace(r[|r| - 1]) && s != [] && r[0] == s[0]
  {
    if s != [] && IsSpace(s[|s| - 1]) then TrimEnd(s[..|s| - 1]) else s
  }

  /** The next CID of a walk: blank predecessors end it, others are used as they are. */
  function Predecessor(prevTreeCID: string): string {
    if Trim(prevTreeCID) == "" then "" else prevTreeCID
  }

  ghost predicate Blank(s: string) {
    forall i | 0 <= i < |s| :: s[i] in " \t\n\r"
  }

  lemma {:induction false} TrimStartIs(s: string) returns (n: nat)
    ensures n <= |s| && Blank(s[..n]) && TrimStart(s) == s[n..]
  {
    n := 0;
    if s != [] && IsSpace(s[0]) {
      var m := TrimStartIs(s[1..]);
      n := m + 1;
      assert s[..n] == [s[0]] + s[1..][..m];
    }
  }

  lemma {:induction false} TrimEndIs(s: string) returns (n: nat)
    ensures n <= |s| && Blank(s[n..]) && TrimEnd(s) == s[..n]
  {
    n := |s|;
    if s != [] && IsSpace(s[|s| - 1]) {
      n := TrimEndIs(s[..|s| - 1]);
      assert s[n..] == s[..|s| - 1][n..] + [s[|s| - 1]];
    }
  }

  /** Trimming takes blanks off both ends, all of them, and nothing else. */
  lemma TrimIs(s: string) returns (from: nat, to: nat)
    ensures from <= to <= |s| && Trim(s) == s[from..to]
    ensures Blank(s[..from]) && Blank(s[to..])
    ensures from < to ==> s[from] !in " \t\n\r" && s[to - 1] !in " \t\n\r"
  {
    from := TrimStartIs(s);
    var t := TrimStart(s);
    var n := TrimEndIs(t);
    to := from + n;
    assert Trim(s) == TrimEnd(t);
    assert t[..n] == s[from..to] && t[n..] == s[to..];
  }

  /** A predecessor ends the walk exactly when it is blank; any other is followed as it is, blanks included. */
  lemma PredecessorIs(prevTreeCID: string)
    ensures Predecessor(prevTreeCID) == (if Blank(prevTreeCID) then "" else prevTreeCID)
  {
    var from, to := TrimIs(prevTreeCID);
    if from == to {
      assert prevTreeCID == prevTreeCID[..from] + prevTreeCID[to..];
    } else {
      assert !IsSpace(prevTreeCID[from]);
    }
  }
}
