/** What `parseHTPasswd` promises about a credentials file, stated over the
    lines of the file and proved about `Parse`, which `ParseHTPasswd`
    computes. */
module HtpasswdProperties {
  import opened GoStrings
  import opened Htpasswd

  // ---------------------------------------------------------------------
  // Which lines are skipped

  /** A line is skipped exactly when it is all white space, or its first
      character that is not white space is '#'. */
  lemma SkippedLineShape(raw: string)
    ensures Skipped(raw) <==>
              || (forall k :: 0 <= k < |raw| ==> IsSpace(raw[k]))
              || (exists p :: 0 <= p < |raw| && raw[p] == '#' && forall k :: 0 <= k < p ==> IsSpace(raw[k]))
  {
    TrimSpaceSpec(raw);
    var i := LeadingSpace(raw);
    var t := TrimSpace(raw);
    if Skipped(raw) {
      if t != [] {
        assert raw[i] == '#';
      } else {
        forall k | 0 <= k < |raw| ensures IsSpace(raw[k]) {
          if k >= i { assert i + |t| <= k; }
        }
      }
    } else {
      assert t != [] && t[0] != '#';
      assert raw[i] == t[0];
      assert !IsSpace(raw[i]);
      forall p | 0 <= p < |raw| && raw[p] == '#'
        ensures exists k :: 0 <= k < p && !IsSpace(raw[k])
      {
        assert p != i;
      }
    }
  }

  /** A line that is neither blank nor a comment is malformed exactly when
      its trimmed text holds no colon; otherwise it is accepted, and its
      entry is that text split at the first colon: the user name holds no
      colon, and the hash (possibly empty, possibly with colons) is all the
      rest. */
  lemma LineSplit(raw: string)
    requires !Skipped(raw)
    ensures Malformed(raw) <==> ':' !in TrimSpace(raw)
    ensures Accepted(raw) <==> ':' in TrimSpace(raw)
    ensures Accepted(raw) ==> Entry(raw).0 + [':'] + Entry(raw).1 == TrimSpace(raw)
    ensures Accepted(raw) ==> ':' !in Entry(raw).0
  {
    var t := TrimSpace(raw);
    IndexSpec(t, ':');
    if Accepted(raw) {
      var i := Index(t, ':');
      assert t == t[..i] + [':'] + t[i + 1..];
    }
  }

  /** Conversely, a line with no white space at either end that does not
      begin with '#' and holds a colon stores the text before its first
      colon as the user name (possibly empty) and the rest as the hash. */
  lemma EntryLineClassifies(raw: string, user: string, hash: string)
    requires raw == user + [':'] + hash && ':' !in user
    requires raw[0] != '#' && !IsSpace(raw[0]) && !IsSpace(raw[|raw| - 1])
    ensures Accepted(raw) && Entry(raw) == (user, hash)
  {
    TrimLeftSpec(raw);
    assert LeadingSpace(raw) == 0;
    assert TrimLeft(raw) == raw;
    TrimRightSpec(raw);
    assert TrimSpace(raw) == raw;
    IndexSpec(raw, ':');
    var i := Index(raw, ':');
    assert raw[|user|] == ':';
    assert i == |user|;
    assert raw[..i] == user && raw[i + 1..] == hash;
  }

  // ---------------------------------------------------------------------
  // Classifying a file line by line

  /** Classifying two pieces of a file one after the other classifies the
      whole file. */
  lemma KindsAppend(a: seq<string>, b: seq<string>)
    ensures Kinds(a + b) == Kinds(a) + Kinds(b)
  {
  }

  /** Classifying a prefix of a file gives a prefix of its classification. */
  lemma KindsPrefix(lines: seq<string>, k: nat)
    requires k <= |lines|
    ensures Kinds(lines[..k]) == Kinds(lines)[..k]
  {
  }

  // ---------------------------------------------------------------------
  // Skipped lines are inert

  /** A blank or comment line adds nothing to the table or the count. */
  lemma {:induction false} TableInsertSkipped(kp: seq<Line>, l: Line, kq: seq<Line>)
    requires l.Blank? || l.Comment?
    ensures Table(kp + [l] + kq) == Table(kp + kq)
    ensures EntryCount(kp + [l] + kq) == EntryCount(kp + kq)
  {
    var long, short := kp + [l] + kq, kp + kq;
    if kq == [] {
      assert long[..|long| - 1] == kp;
      assert short == kp;
    } else {
      var init := kq[..|kq| - 1];
      TableInsertSkipped(kp, l, init);
      assert long[..|long| - 1] == kp + [l] + init;
      assert short[..|short| - 1] == kp + init;
    }
  }

  /** Inserting a blank or comment line before the first invalid line moves
      that line one place on and leaves the count before it unchanged;
      inserting it after the first invalid line changes nothing up to it. */
  lemma InsertSkippedKinds(kp: seq<Line>, l: Line, kq: seq<Line>)
    requires l.Blank? || l.Comment?
    ensures var k := FirstInvalid(kp + kq);
            k < |kp| ==> FirstInvalid(kp + [l] + kq) == k && (kp + [l] + kq)[..k] == (kp + kq)[..k]
    ensures var k := FirstInvalid(kp + kq);
            k >= |kp| ==> FirstInvalid(kp + [l] + kq) == k + 1 &&
                          EntryCount((kp + [l] + kq)[..k + 1]) == EntryCount((kp + kq)[..k])
  {
    var long, short := kp + [l] + kq, kp + kq;
    var k := FirstInvalid(short);
    if k < |kp| {
      forall j | 0 <= j <= k ensures long[j] == short[j] {
      }
      FirstInvalidIs(long, k);
      assert long[..k] == short[..k];
    } else {
      forall j | 0 <= j < k + 1 ensures !long[j].Invalid? {
        if j < |kp| {
          assert long[j] == short[j];
        } else if j > |kp| {
          assert long[j] == short[j - 1];
        }
      }
      if k < |short| {
        assert long[k + 1] == short[k];
      }
      FirstInvalidIs(long, k + 1);
      var q := kq[..k - |kp|];
      TableInsertSkipped(kp, l, q);
      assert long[..k + 1] == kp + [l] + q;
      assert short[..k] == kp + q;
    }
  }

  /** `SkippedLineIsInert` for lines already classified. */
  lemma InsertSkippedClassified(pre: seq<string>, raw: string, post: seq<string>,
                                kp: seq<Line>, l: Line, kq: seq<Line>)
    requires |kp| == |pre| && |kq| == |post|
    requires l.Blank? || l.Comment?
    ensures ParseClassified(pre + [raw] + post, kp + [l] + kq) == ParseClassified(pre + post, kp + kq)
  {
    var long, short := pre + [raw] + post, pre + post;
    InsertSkippedKinds(kp, l, kq);
    TableInsertSkipped(kp, l, kq);
    var k := FirstInvalid(kp + kq);
    if k < |pre| {
      assert long[k] == short[k];
    } else if k < |short| {
      assert long[k + 1] == short[k];
    }
  }

  /** Inserting a blank or comment line anywhere in a credentials file
      changes neither the table, nor whether the parse fails, nor the line
      number and text of its error. */
  lemma SkippedLineIsInert(pre: seq<string>, raw: string, post: seq<string>)
    requires Skipped(raw)
    ensures Parse(pre + [raw] + post) == Parse(pre + post)
  {
    KindsAppend(pre, [raw]);
    KindsAppend(pre + [raw], post);
    KindsAppend(pre, post);
    var kr := Kinds([raw]);
    KindAt([raw], 0);
    assert kr == [kr[0]];
    InsertSkippedClassified(pre, raw, post, Kinds(pre), kr[0], Kinds(post));
  }

  // ---------------------------------------------------------------------
  // When the parse fails

  /** The parse fails exactly when some line is malformed (not blank, not a
      comment, no colon). */
  lemma ParseFailsIff(lines: seq<string>)
    ensures Parse(lines).Err? <==> exists k :: 0 <= k < |lines| && Malformed(lines[k])
  {
    var ks := Kinds(lines);
    var f := FirstInvalid(ks);
    if f < |lines| {
      KindAt(lines, f);
    }
    if k :| 0 <= k < |lines| && Malformed(lines[k]) {
      KindAt(lines, k);
    }
  }

  /** The positions of `s` whose element satisfies `p`. */
  function Positions<T>(s: seq<T>, p: T -> bool): set<nat>
  {
    set j: nat | j < |s| && p(s[j])
  }

  /** Dropping the last element drops at most its own position. */
  lemma PositionsStep<T>(s: seq<T>, p: T -> bool)
    requires s != []
    ensures |Positions(s, p)| == |Positions(s[..|s| - 1], p)| + if p(s[|s| - 1]) then 1 else 0
  {
    var n := |s| - 1;
    var before := Positions(s[..n], p);
    assert before == set j: nat | j < n && p(s[j]);
    if p(s[n]) {
      assert Positions(s, p) == before + {n};
    } else {
      assert Positions(s, p) == before;
    }
  }

  /** A line the parser stores. */
  predicate IsEntry(l: Line)
  {
    l.Credentials?
  }

  /** The count of entries is the number of positions holding one. */
  lemma {:induction false} EntryCountCounts(ks: seq<Line>)
    ensures EntryCount(ks) == |Positions(ks, IsEntry)|
  {
    if ks != [] {
      EntryCountCounts(ks[..|ks| - 1]);
      PositionsStep(ks, IsEntry);
    }
  }

  /** The entries of a file's classification sit at its accepted lines. */
  lemma AcceptedPositions(lines: seq<string>)
    ensures Positions(Kinds(lines), IsEntry) == Positions(lines, Accepted)
  {
  }

  /** A failed parse reports the first malformed line, with its raw text,
      and numbers it one more than the count of lines accepted before it:
      blank and comment lines are not counted. */
  lemma ParseErrorNamesLine(lines: seq<string>, k: nat)
    requires k < |lines| && Malformed(lines[k])
    requires forall j :: 0 <= j < k ==> !Malformed(lines[j])
    ensures Parse(lines).Err?
    ensures Parse(lines).error.text == lines[k]
    ensures Parse(lines).error.line == 1 + |Positions(lines[..k], Accepted)|
  {
    var ks := Kinds(lines);
    forall j | 0 <= j < k ensures !ks[j].Invalid? {
      KindAt(lines, j);
    }
    KindAt(lines, k);
    FirstInvalidIs(ks, k);
    KindsPrefix(lines, k);
    EntryCountCounts(ks[..k]);
    AcceptedPositions(lines[..k]);
  }

  /** Once a prefix of the file fails to parse, nothing after it matters:
      the parse stops at the first malformed line. */
  lemma ErrorIsFinal(lines: seq<string>, more: seq<string>)
    requires Parse(lines).Err?
    ensures Parse(lines + more) == Parse(lines)
  {
    var all := lines + more;
    KindsAppend(lines, more);
    var ks, kall := Kinds(lines), Kinds(all);
    var k := FirstInvalid(ks);
    forall j | 0 <= j <= k ensures kall[j] == ks[j] {
    }
    FirstInvalidIs(kall, k);
    assert kall[..k] == ks[..k];
    assert all[k] == lines[k];
  }

  // ---------------------------------------------------------------------
  // What the table holds

  /** The users in the table are exactly the users of its entries. */
  lemma {:induction false} TableKeys(ks: seq<Line>)
    ensures Table(ks).Keys == set j | 0 <= j < |ks| && ks[j].Credentials? :: ks[j].user
  {
    if ks != [] {
      var n := |ks| - 1;
      var init := ks[..n];
      TableKeys(init);
      var before := set j | 0 <= j < n && init[j].Credentials? :: init[j].user;
      var after := set j | 0 <= j < |ks| && ks[j].Credentials? :: ks[j].user;
      if ks[n].Credentials? {
        assert after == before + {ks[n].user};
      } else {
        assert after == before;
      }
    }
  }

  /** The table holds, for each user, the hash of the last entry naming it. */
  lemma {:induction false} TableLastWins(ks: seq<Line>, k: nat)
    requires k < |ks| && ks[k].Credentials?
    requires forall j :: k < j < |ks| && ks[j].Credentials? ==> ks[j].user != ks[k].user
    ensures ks[k].user in Table(ks)
    ensures Table(ks)[ks[k].user] == ks[k].hash
  {
    var n := |ks| - 1;
    if k < n {
      TableLastWins(ks[..n], k);
    } else {
      assert ks[..n + 1] == ks;
      PrefixStep(ks, n);
    }
  }

  /** The users in a parsed table are exactly the user names of the
      accepted lines. */
  lemma ParsedUsers(lines: seq<string>)
    requires Parse(lines).Ok?
    ensures Parse(lines).value.Keys == set j | 0 <= j < |lines| && Accepted(lines[j]) :: Entry(lines[j]).0
  {
    var ks := Kinds(lines);
    TableKeys(ks);
    var users := set j | 0 <= j < |ks| && ks[j].Credentials? :: ks[j].user;
    var named := set j | 0 <= j < |lines| && Accepted(lines[j]) :: Entry(lines[j]).0;
    forall u | u in users ensures u in named {
      var j :| 0 <= j < |ks| && ks[j].Credentials? && ks[j].user == u;
      KindAt(lines, j);
    }
    forall u | u in named ensures u in users {
      var j :| 0 <= j < |lines| && Accepted(lines[j]) && Entry(lines[j]).0 == u;
      KindAt(lines, j);
    }
  }

  /** When a user name occurs on several accepted lines, the table holds the
      hash of the last of them. */
  lemma LastEntryWins(lines: seq<string>, k: nat)
    requires Parse(lines).Ok?
    requires k < |lines| && Accepted(lines[k])
    requires forall j :: k < j < |lines| && Accepted(lines[j]) ==> Entry(lines[j]).0 != Entry(lines[k]).0
    ensures Entry(lines[k]).0 in Parse(lines).value
    ensures Parse(lines).value[Entry(lines[k]).0] == Entry(lines[k]).1
  {
    var ks := Kinds(lines);
    KindAt(lines, k);
    forall j | k < j < |ks| && ks[j].Credentials? ensures ks[j].user != ks[k].user {
      KindAt(lines, j);
    }
    TableLastWins(ks, k);
  }
}
