/**
 * The `.netrc` check of authenticateUser (auth.go): the file is cut into
 * lines and each line into whitespace-separated fields; every field but the
 * last is looked at as a keyword whose value is the field after it.
 */
module Netrc {
  import opened Wrappers
  import opened Text

  /** The three variables the scan updates (auth.go:25). */
  datatype ScanState = ScanState(machine: string, login: string, password: string)

  const Start := ScanState("", "", "")

  /** One keyword and the field after it, as the switch of auth.go:34-45 reads them. */
  function Step(st: ScanState, pair: (string, string), host: string): (r: ScanState)
    ensures pair.0 != "machine" ==> r.machine == st.machine
    ensures pair.0 != "login" || st.machine != host ==> r.login == st.login
    ensures pair.0 != "password" || st.machine != host ==> r.password == st.password
  {
    var (key, value) := pair;
    if key == "machine" then st.(machine := value)
    else if key == "login" then (if st.machine == host then st.(login := value) else st)
    else if key == "password" then (if st.machine == host then st.(password := value) else st)
    else st
  }

  /** The steps over a sequence of keyword/value pairs, in order. */
  function Run(st: ScanState, pairs: seq<(string, string)>, host: string): ScanState
  {
    if pairs == [] then st else Step(Run(st, pairs[..|pairs| - 1], host), pairs[|pairs| - 1], host)
  }

  /** Each field but the last, with the field after it (auth.go:33). */
  function Adjacent(fields: seq<string>): (pairs: seq<(string, string)>)
    ensures |fields| < 2 ==> pairs == []
    ensures |fields| >= 2 ==> |pairs| == |fields| - 1
    ensures forall i :: 0 <= i < |pairs| ==> pairs[i] == (fields[i], fields[i + 1])
  {
    if |fields| < 2 then [] else seq(|fields| - 1, i requires 0 <= i < |fields| - 1 => (fields[i], fields[i + 1]))
  }

  /** The fields of one line (auth.go:27). */
  function LineFields(line: string): seq<string>
  {
    Fields(TrimSpace(line))
  }

  /** The keyword/value pairs of a sequence of lines, line after line. */
  function LinePairs(lines: seq<string>): seq<(string, string)>
  {
    if lines == [] then [] else LinePairs(lines[..|lines| - 1]) + Adjacent(LineFields(lines[|lines| - 1]))
  }

  /** The keyword/value pairs of a whole file. */
  function Pairs(text: string): seq<(string, string)>
  {
    LinePairs(Split(text, '\n'))
  }

  /** What the scan of auth.go:26-47 leaves in its three variables. */
  function Scan(text: string, host: string): ScanState
  {
    Run(Start, Pairs(text), host)
  }

  lemma {:induction false} RunAppend(st: ScanState, a: seq<(string, string)>, b: seq<(string, string)>, host: string)
    ensures Run(st, a + b, host) == Run(Run(st, a, host), b, host)
    decreases |b|
  {
    if b == [] {
      assert a + b == a;
    } else {
      assert (a + b)[..|a + b| - 1] == a + b[..|b| - 1];
      RunAppend(st, a, b[..|b| - 1], host);
    }
  }

  /**
   * The scan loops of auth.go:26-47: for each line with at least two fields,
   * each field but the last is matched against the three keywords.
   */
  method ScanNetrc(text: string, host: string) returns (login: string, password: string)
    ensures login == Scan(text, host).login && password == Scan(text, host).password
  {
    var lines := Split(text, '\n');
    var machine := "";
    login, password := "", "";
    var n := 0;
    while n < |lines|
      invariant 0 <= n <= |lines|
      invariant ScanState(machine, login, password) == Run(Start, LinePairs(lines[..n]), host)
    {
      var fields := Fields(TrimSpace(lines[n]));
      ghost var start := ScanState(machine, login, password);
      ghost var pairs := Adjacent(fields);
      if |fields| >= 2 {
        var i := 0;
        while i < |fields| - 1
          invariant 0 <= i <= |fields| - 1
          invariant ScanState(machine, login, password) == Run(start, pairs[..i], host)
        {
          ghost var st := ScanState(machine, login, password);
          assert pairs[i] == (fields[i], fields[i + 1]);
          if fields[i] == "machine" {
            machine := fields[i + 1];
          } else if fields[i] == "login" {
            if machine == host {
              login := fields[i + 1];
            }
          } else if fields[i] == "password" {
            if machine == host {
              password := fields[i + 1];
            }
          }
          assert ScanState(machine, login, password) == Step(st, pairs[i], host);
          RunSnoc(start, pairs, i, host);
          i := i + 1;
        }
        assert pairs[..i] == pairs;
      }
      LinePairsSnoc(lines, n);
      RunAppend(Start, LinePairs(lines[..n]), pairs, host);
      n := n + 1;
    }
    assert lines[..n] == lines;
  }

  /** One more pair is one more step. */
  lemma RunSnoc(st: ScanState, pairs: seq<(string, string)>, i: nat, host: string)
    requires i < |pairs|
    ensures Run(st, pairs[..i + 1], host) == Step(Run(st, pairs[..i], host), pairs[i], host)
  {
    assert pairs[..i + 1][..i] == pairs[..i];
  }

  /** One more line contributes its adjacent pairs. */
  lemma LinePairsSnoc(lines: seq<string>, n: nat)
    requires n < |lines|
    ensures LinePairs(lines[..n + 1]) == LinePairs(lines[..n]) + Adjacent(LineFields(lines[n]))
  {
    assert lines[..n + 1][..n] == lines[..n];
  }

  /**
   * authenticateUser (auth.go:10-50). `credentials` is what the request's
   * Basic-Auth header carries, `netrc` the text of the user's `.netrc`
   * (`None` when the home directory or the file cannot be read), `host` the
   * request's host.
   */
  method AuthenticateUser(credentials: Option<(string, string)>, netrc: Option<string>, host: string)
    returns (username: string, password: string, ok: bool)
    ensures credentials.None? || netrc.None? ==> username == "" && password == "" && !ok
    ensures credentials.Some? && netrc.Some? ==>
      && username == credentials.value.0 && password == credentials.value.1
      && (ok <==> username == Scan(netrc.value, host).login && password == Scan(netrc.value, host).password)
  {
    if credentials.None? {
      return "", "", false;
    }
    if netrc.None? {
      return "", "", false;
    }
    username, password := credentials.value.0, credentials.value.1;
    var netrcUser, netrcPass := ScanNetrc(netrc.value, host);
    ok := username == netrcUser && password == netrcPass;
  }

  /** The machine in force before pair `j`: the value of the last `machine` keyword before it, or "". */
  function MachineBefore(pairs: seq<(string, string)>, j: nat): string
    requires j <= |pairs|
  {
    if j == 0 then ""
    else if pairs[j - 1].0 == "machine" then pairs[j - 1].1
    else MachineBefore(pairs, j - 1)
  }

  /** Pair `j` gives `key` a value for `host`: it is that keyword, met while the machine is `host`. */
  predicate Records(pairs: seq<(string, string)>, j: nat, key: string, host: string)
    requires j < |pairs|
  {
    pairs[j].0 == key && MachineBefore(pairs, j) == host
  }

  lemma {:induction false} MachineBeforePrefix(pairs: seq<(string, string)>, n: nat, j: nat)
    requires j <= n <= |pairs|
    ensures MachineBefore(pairs[..n], j) == MachineBefore(pairs, j)
    decreases j
  {
    if j > 0 {
      MachineBeforePrefix(pairs, n, j - 1);
    }
  }

  /** The value the scan holds for `key` ("login" or "password"). */
  function Value(st: ScanState, key: string): string
  {
    if key == "login" then st.login else st.password
  }

  /** The machine after the scan is the last one named. */
  lemma {:induction false} RunMachine(pairs: seq<(string, string)>, host: string)
    ensures Run(Start, pairs, host).machine == MachineBefore(pairs, |pairs|)
  {
    if pairs != [] {
      var n := |pairs| - 1;
      RunMachine(pairs[..n], host);
      MachineBeforePrefix(pairs, n, n);
    }
  }

  /** No pair records `key` for `host`. */
  predicate NoRecord(pairs: seq<(string, string)>, key: string, host: string)
  {
    forall j :: 0 <= j < |pairs| ==> !Records(pairs, j, key, host)
  }

  /** Pair `j` is the last one that records `key` for `host`. */
  predicate LastRecord(pairs: seq<(string, string)>, j: nat, key: string, host: string)
  {
    j < |pairs| && Records(pairs, j, key, host) && forall j' :: j < j' < |pairs| ==> !Records(pairs, j', key, host)
  }

  /**
   * The login (and the password) the scan ends with is the value of the
   * last `login` (`password`) keyword met while the machine was `host`, and
   * "" when there is none: values for other machines are ignored and a later
   * value overrides an earlier one.
   */
  lemma {:induction false} RunRecorded(pairs: seq<(string, string)>, host: string, key: string)
    requires key == "login" || key == "password"
    ensures NoRecord(pairs, key, host) ==> Value(Run(Start, pairs, host), key) == ""
    ensures forall j: nat :: LastRecord(pairs, j, key, host) ==> Value(Run(Start, pairs, host), key) == pairs[j].1
  {
    if pairs != [] {
      var n := |pairs| - 1;
      var init := pairs[..n];
      assert pairs[..n] == init;
      var before := Run(Start, init, host);
      assert Run(Start, pairs, host) == Step(before, pairs[n], host);
      RunRecorded(init, host, key);
      RunMachine(init, host);
      forall j | 0 <= j <= n ensures MachineBefore(init, j) == MachineBefore(pairs, j) {
        MachineBeforePrefix(pairs, n, j);
      }
      assert before.machine == MachineBefore(pairs, n);
      forall j | 0 <= j < n ensures Records(init, j, key, host) == Records(pairs, j, key, host) {
      }
      if Records(pairs, n, key, host) {
        assert Value(Run(Start, pairs, host), key) == pairs[n].1;
        forall j: nat | LastRecord(pairs, j, key, host) ensures j == n {
        }
      } else {
        assert Value(Run(Start, pairs, host), key) == Value(before, key);
        forall j: nat | LastRecord(pairs, j, key, host) ensures LastRecord(init, j, key, host) {
        }
        if NoRecord(pairs, key, host) {
          assert NoRecord(init, key, host);
        }
      }
    }
  }

  /**
   * Read at the level of the file: every line contributes its adjacent pairs,
   * so a line with fewer than two fields contributes nothing, and the last
   * field of a line is only ever a value.
   */
  lemma {:induction false} PairsOfLines(x: string, line: string)
    requires '\n' !in line
    ensures Pairs(x + "\n" + line) == Pairs(x) + Adjacent(LineFields(line))
    ensures |LineFields(line)| < 2 ==> Pairs(x + "\n" + line) == Pairs(x)
  {
    SplitAppend(x, line, '\n');
    SplitNoSep(line, '\n');
    var lx := Split(x, '\n');
    assert (lx + [line])[..|lx|] == lx;
  }

  /** Trimming the line first is redundant: its fields are those of the untrimmed line. */
  lemma LineFieldsUntrimmed(line: string)
    ensures LineFields(line) == Fields(line)
  {
    FieldsOfTrimSpace(line);
  }

  /** With no entry for the host, both recorded values are "", so empty credentials are accepted. */
  lemma NoEntryAcceptsEmpty(text: string, host: string)
    requires NoRecord(Pairs(text), "login", host) && NoRecord(Pairs(text), "password", host)
    ensures Scan(text, host).login == "" && Scan(text, host).password == ""
  {
    RunRecorded(Pairs(text), host, "login");
    RunRecorded(Pairs(text), host, "password");
  }
}
