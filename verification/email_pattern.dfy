/** The loose e-mail check both forms use: an unanchored search for the
    regular expression `\S+@\S+\.\S+` (not the address grammar of RFC 5322).

    `Matches` says declaratively when a match exists; `IsEmailLike` decides it
    with a left-to-right scan through six states, and is proved to agree with
    `Matches` on every string. */
module EmailPattern {
  import opened JsText

  /** A match whose '@' is at `p` and whose '.' is at `q`: one non-whitespace
      character before the '@', at least one non-whitespace character
      between the two, and one non-whitespace character after the '.'. */
  ghost predicate MatchAt(s: string, p: int, q: int) {
    && 1 <= p && p + 2 <= q && q + 1 < |s|
    && s[p] == '@' && s[q] == '.'
    && !IsWhitespace(s[p - 1]) && !IsWhitespace(s[q + 1])
    && (forall k :: p < k < q ==> !IsWhitespace(s[k]))
  }

  /** `/\S+@\S+\.\S+/.test(s)` */
  ghost predicate Matches(s: string) {
    exists p, q :: MatchAt(s, p, q)
  }

  /** Where the scan stands after a prefix of the input. */
  datatype ScanState =
    | Blank    // at the start, or just after whitespace
    | Local    // inside a run of non-whitespace with no usable '@' yet
    | AtSign   // just read a usable '@'
    | Domain   // one or more characters after a usable '@'
    | Dot      // just read a '.' far enough after a usable '@'
    | Matched  // a match has been seen

  function Step(st: ScanState, c: char): ScanState {
    if st == Matched then Matched
    else if IsWhitespace(c) then Blank
    else match st
      case Blank => Local
      case Local => if c == '@' then AtSign else Local
      case AtSign => Domain
      case Domain => if c == '.' then Dot else Domain
      case Dot => Matched
  }

  function Scan(s: string): ScanState {
    if s == [] then Blank else Step(Scan(s[..|s| - 1]), s[|s| - 1])
  }

  /** Decides the pattern with one pass over `s`. */
  function IsEmailLike(s: string): (r: bool)
    ensures r <==> Matches(s)
  {
    ScanIsClassify(s);
    Scan(s) == Matched
  }

  // The meaning of each scan state, in terms of the prefix read so far.

  /** An '@' at `p` that can still serve as the '@' of a match: it follows
      a non-whitespace character and only non-whitespace follows it. */
  ghost predicate OpenAt(t: string, p: int) {
    && 1 <= p < |t| && t[p] == '@' && !IsWhitespace(t[p - 1])
    && (forall k :: p < k < |t| ==> !IsWhitespace(t[k]))
  }

  /** The last character of `t` is a '.' that can serve as the '.' of a
      match for the open '@' at `p`. */
  ghost predicate OpenDot(t: string, p: int) {
    OpenAt(t, p) && p + 2 <= |t| - 1 && t[|t| - 1] == '.'
  }

  ghost function Classify(t: string): ScanState {
    if Matches(t) then Matched
    else if exists p :: OpenDot(t, p) then Dot
    else if exists p :: OpenAt(t, p) && p <= |t| - 2 then Domain
    else if OpenAt(t, |t| - 1) then AtSign
    else if |t| > 0 && !IsWhitespace(t[|t| - 1]) then Local
    else Blank
  }

  lemma MatchesExtend(t: string, c: char)
    ensures Matches(t + [c]) <==> Matches(t) || (!IsWhitespace(c) && exists p :: OpenDot(t, p))
  {
    var u := t + [c];
    assert forall k :: 0 <= k < |t| ==> u[k] == t[k];
    if Matches(u) {
      var p, q :| MatchAt(u, p, q);
      if q + 1 < |t| {
        assert MatchAt(t, p, q);
      } else {
        assert OpenDot(t, p);
      }
    }
    if Matches(t) {
      var p, q :| MatchAt(t, p, q);
      assert MatchAt(u, p, q);
    }
    if !IsWhitespace(c) && exists p :: OpenDot(t, p) {
      var p :| OpenDot(t, p);
      assert MatchAt(u, p, |t| - 1);
    }
  }

  lemma OpenAtExtend(t: string, c: char, p: int)
    ensures p < |t| ==> (OpenAt(t + [c], p) <==> OpenAt(t, p) && !IsWhitespace(c))
    ensures p == |t| ==> (OpenAt(t + [c], p) <==> c == '@' && |t| >= 1 && !IsWhitespace(t[|t| - 1]))
  {
    var u := t + [c];
    assert forall k :: 0 <= k < |t| ==> u[k] == t[k];
    if p < |t| && OpenAt(t, p) && !IsWhitespace(c) {
      forall k | p < k < |u| ensures !IsWhitespace(u[k]) {
        if k < |t| { assert u[k] == t[k]; }
      }
    }
    if p < |t| && OpenAt(u, p) {
      assert !IsWhitespace(u[|t|]);
    }
  }

  /** A whitespace-ended prefix has no open '@'. */
  lemma NoOpenAfterBlank(t: string, p: int)
    requires |t| == 0 || IsWhitespace(t[|t| - 1])
    ensures !OpenAt(t, p)
  {
  }

  /** One step of the scan keeps the state equal to the classification of
      the prefix read so far. */
  lemma StepClassify(t: string, c: char)
    ensures Classify(t + [c]) == Step(Classify(t), c)
  {
    var u := t + [c];
    MatchesExtend(t, c);
    forall p ensures (p < |t| ==> (OpenAt(u, p) <==> OpenAt(t, p) && !IsWhitespace(c)))
                  && (p == |t| ==> (OpenAt(u, p) <==> c == '@' && |t| >= 1 && !IsWhitespace(t[|t| - 1])))
    {
      OpenAtExtend(t, c, p);
    }
    var st := Classify(t);
    if st == Matched {
    } else if IsWhitespace(c) {
      forall p ensures !OpenAt(u, p) { NoOpenAfterBlank(u, p); }
    } else if st == Dot {
    } else if st == Domain {
      var p :| OpenAt(t, p) && p <= |t| - 2;
      assert OpenAt(u, p);
      if c == '.' {
        assert OpenDot(u, p);
      } else {
        assert u[|u| - 1] == c;
      }
    } else if st == AtSign {
      assert OpenAt(u, |t| - 1);
    } else if st == Local {
    } else {
      forall p | 0 <= p < |t| ensures !OpenAt(t, p) { NoOpenAfterBlank(t, p); }
    }
  }

  lemma {:induction false} ScanIsClassify(s: string)
    ensures Scan(s) == Classify(s)
  {
    if s != [] {
      var t := s[..|s| - 1];
      ScanIsClassify(t);
      StepClassify(t, s[|s| - 1]);
      assert t + [s[|s| - 1]] == s;
    }
  }

  /** The string "bad-email" used in the login scenario has no '@', so it is
      rejected, while "a@b.co" is accepted. */
  lemma Examples()
    ensures !IsEmailLike("bad-email")
    ensures IsEmailLike("a@b.co")
  {
    assert MatchAt("a@b.co", 1, 3);
  }
}
