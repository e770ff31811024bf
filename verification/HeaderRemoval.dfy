/** When stripping a field from the headers (src/readpst.c, header_strip_field) leaves an
    occurrence of it behind. */
module HeaderRemoval {
  import opened Common
  import opened HeaderField

  /** A newline, and then a name without any: what header_strip_field is called with. */
  predicate IsNeedle(f: string) {
    |f| >= 2 && f[0] == '\n' && forall i :: 1 <= i < |f| ==> f[i] != '\n'
  }

  /** No line is cut short inside the name: no newline breaks off a partial match. */
  predicate Uncut(h: string, f: string) {
    forall j, k :: 0 <= j < k < |h| && h[k] == '\n' && k - j < |f| ==> !Part(h, f, j, k)
  }

  predicate Occurs(h: string, f: string) { exists k: nat :: k < |h| && MatchesAt(h, f, k) }

  /** An occurrence that the search makes no attempt at. */
  predicate HiddenAt(h: string, f: string, k: nat) { k < |h| && MatchesAt(h, f, k) && !Live(h, f, k) }

  ghost predicate Hidden(h: string, f: string) { exists k: nat :: HiddenAt(h, f, k) }

  lemma {:induction false} OnlyNewlineIsNewline(c: char)
    ensures Same(c, '\n') <==> c == '\n'
  {
  }

  /** Inside a partial match there is no newline but the first character. */
  lemma {:induction false} NoNewlineInside(h: string, f: string, j: nat, m: nat, k: nat)
    requires IsNeedle(f) && Part(h, f, j, k) && j < m < k
    ensures h[m] != '\n'
  {
    assert Same(h[j + (m - j)], f[m - j]);
  }

  lemma {:induction false} PartBeginsWithNewline(h: string, f: string, j: nat, k: nat)
    requires IsNeedle(f) && Part(h, f, j, k) && j < k
    ensures h[j] == '\n'
  {
    assert Same(h[j + 0], f[0]);
  }

  /** Partial matches in the same text at different places. */
  lemma {:induction false} PartMoves(h: string, h': string, f: string, j: nat, j': nat, n: nat)
    requires j + n <= |h| && j' + n <= |h'| && h[j..j + n] == h'[j'..j' + n]
    ensures Part(h, f, j, j + n) <==> Part(h', f, j', j' + n)
  {
    PartOfSlice(h, f, j, n);
    PartOfSlice(h', f, j', n);
  }

  lemma {:induction false} PartOfSlice(h: string, f: string, j: nat, n: nat)
    requires j + n <= |h|
    ensures Part(h, f, j, j + n) <==> Part(h[j..j + n], f, 0, n)
  {
  }

  lemma {:induction false} SliceBehind(h: string, t: nat, e: nat, j: nat, n: nat)
    requires t <= e <= |h| && t <= j && j + n <= t + |h| - e
    ensures (h[..t] + h[e..])[j..j + n] == h[j + (e - t)..j + (e - t) + n]
  {
  }

  // ---------- headers in which no line is cut short ----------

  /** Taking out a field cuts no line short. */
  lemma {:induction false} DeletionKeepsUncut(h: string, f: string, t: nat)
    requires IsNeedle(f) && Uncut(h, f) && t < |h|
    requires MatchesAt(h, f, t) || (t == 0 && MatchesAt(h, f[1..], 0))
    ensures Uncut(Deleted(h, t), f)
  {
    var h', e := Deleted(h, t), FieldEnd(h, t + 1);
    forall j, k | 0 <= j < k < |h'| && h'[k] == '\n' && k - j < |f| ensures !Part(h', f, j, k) {
      if e < |h| && t > 0 {
        StillUncut(h, f, t, e, j, k);
      } else if e == |h| {
        PartMoves(h, h', f, j, j, k - j);
      } else {
        assert h' == h[..0] + h[e + 1..];
        SliceBehind(h, 0, e + 1, j, k - j);
        PartMoves(h, h', f, j + e + 1, j, k - j);
      }
    }
  }

  lemma {:induction false} StillUncut(h: string, f: string, t: nat, e: nat, j: nat, k: nat)
    requires IsNeedle(f) && Uncut(h, f) && MatchesAt(h, f, t) && t <= e < |h| && h[e] == '\n'
    requires j < k < t + |h| - e && (h[..t] + h[e..])[k] == '\n' && k - j < |f|
    ensures !Part(h[..t] + h[e..], f, j, k)
  {
    var h' := h[..t] + h[e..];
    if j >= t {
      SliceBehind(h, t, e, j, k - j);
      PartMoves(h, h', f, j + (e - t), j, k - j);
    } else if k <= t {
      PartBeginsWithNewline(h, f, t, t + |f|);
      assert h[j..k] == h'[j..k];
      PartMoves(h, h', f, j, j, k - j);
    } else {
      assert h'[t] == '\n';
      if Part(h', f, j, k) { NoNewlineInside(h', f, j, t, k); }
    }
  }

  lemma {:induction false} UncutIsLive(h: string, f: string, k: nat)
    requires IsNeedle(f) && Uncut(h, f) && MatchesAt(h, f, k)
    ensures Live(h, f, k)
  {
    PartBeginsWithNewline(h, f, k, k + |f|);
    assert Same(h[k + 0], f[0]);
  }

  /** If no line of the headers is cut short inside the name, the field is really gone. */
  lemma {:induction false} UncutIsStripped(h: string, f: string)
    requires IsNeedle(f) && Uncut(h, f)
    ensures !Occurs(Strip(h, f), f) && !MatchesAt(Strip(h, f), f[1..], 0)
    decreases |h|
  {
    GetFieldIsSound(h, f);
    match GetField(h, f)
    case None =>
      SearchFindsFirstLive(h, f);
      forall k: nat | k < |h| && MatchesAt(h, f, k) ensures false {
        UncutIsLive(h, f, k);
      }
    case Some(t) =>
      DeletionKeepsUncut(h, f, t);
      UncutIsStripped(Deleted(h, t), f);
  }

  // ---------- headers that keep the field ----------

  /** A field behind an empty line at the start of the headers is kept, whatever its name. */
  lemma {:induction false} EmptyLineKeepsField(f: string, rest: string)
    requires IsNeedle(f) && '\n' !in rest
    ensures var h := ['\n'] + f + rest; Strip(h, f) == h && Occurs(h, f)
  {
    var h := ['\n'] + f + rest;
    assert forall i :: 0 <= i < |f| ==> h[i + 1] == f[i];
    assert MatchesAt(h, f, 1) && 1 < |h|;
    OnlyNewlineIsNewline(f[1]);
    SearchFindsFirstLive(h, f);
    assert Live(h, f, 0) && Part(h, f, 0, 1);
    forall k: nat | MatchesAt(h, f, k) ensures k == 1 {
      PartBeginsWithNewline(h, f, k, k + |f|);
      assert Same(h[k + 1], f[1]);
    }
    assert MatchesAt(h, f[1..], 0) ==> Same(h[0 + 0], f[1..][0]);
  }

  lemma {:induction false} MimeVersionIsKept(h: string, f: string)
    requires f == "\nMIME-Version:" && h == ['\n'] + f + " 1.0"
    ensures Strip(h, f) == h && Occurs(h, f)
  {
    MimeVersionIsNeedle(f);
    EmptyLineKeepsField(f, " 1.0");
  }

  lemma {:induction false} MimeVersionIsNeedle(f: string)
    requires f == "\nMIME-Version:"
    ensures IsNeedle(f)
  {
  }

  // ---------- exactly which headers keep it ----------

  /** A needle whose name does not begin with a blank, which would look like a continuation. */
  predicate IsFieldName(f: string) { IsNeedle(f) && f[1] != ' ' && f[1] != '\t' }

  /** The headers do not begin with the field, be it with or without its newline. */
  predicate PlainStart(h: string, f: string)
    requires f != ""
  {
    !MatchesAt(h, f, 0) && !MatchesAt(h, f[1..], 0)
  }

  lemma {:induction false} PrefixAgrees(h: string, h': string, j: nat, k: nat)
    requires j <= k < |h| && k < |h'| && h[..k + 1] == h'[..k + 1]
    ensures h[..j + 1] == h'[..j + 1] && h[j..k] == h'[j..k]
  {
    var p, p' := h[..k + 1], h'[..k + 1];
    assert h[..j + 1] == p[..j + 1];
    assert h'[..j + 1] == p'[..j + 1];
    assert h[j..k] == p[j..k];
    assert h'[j..k] == p'[j..k];
  }

  /** Whether an attempt is made at k depends only on the text up to k. */
  lemma {:induction false} LiveBefore(h: string, h': string, f: string, k: nat)
    requires k < |h| && k < |h'| && h[..k + 1] == h'[..k + 1]
    ensures Live(h, f, k) <==> Live(h', f, k)
    decreases k
  {
    assert h[k] == h[..k + 1][k] && h'[k] == h'[..k + 1][k];
    forall j | 0 <= j < k
      ensures (Live(h, f, j) <==> Live(h', f, j)) && (Part(h, f, j, k) <==> Part(h', f, j, k))
    {
      PrefixAgrees(h, h', j, k);
      LiveBefore(h, h', f, j);
      PartMoves(h, h', f, j, j, k - j);
    }
  }

  /** The field that begins at t is taken out of h, up to its end at e. */
  predicate Cutting(h: string, f: string, t: nat, e: nat) {
    IsFieldName(f) && 0 < t && MatchesAt(h, f, t) && Live(h, f, t) && e == FieldEnd(h, t + 1)
  }

  /** Nothing breaks off at the end of a field: its last line is no partial match. */
  lemma {:induction false} NoPartAtEnd(h: string, f: string, t: nat, e: nat, j: nat)
    requires Cutting(h, f, t, e) && e < |h| && j < e && e - j < |f|
    ensures !Part(h, f, j, e)
  {
    if Part(h, f, j, e) {
      PartBeginsWithNewline(h, f, j, e);
      PartBeginsWithNewline(h, f, t, t + |f|);
      if j < t {
        NoNewlineInside(h, f, j, t, e);
      } else if j == t {
        NoNewlineInside(h, f, t, e, t + |f|);
      } else {
        ContinuationIsNoPart(h, f, j, e);
      }
    }
  }

  lemma {:induction false} ContinuationIsNoPart(h: string, f: string, j: nat, e: nat)
    requires IsFieldName(f) && j < e < |h| && h[e] == '\n' && h[j] == '\n' && !EndsField(h, j)
    ensures !Part(h, f, j, e)
  {
  }

  lemma {:induction false} EndIsLive(h: string, f: string, t: nat, e: nat)
    requires Cutting(h, f, t, e) && e < |h|
    ensures Live(h, f, e) && Live(Deleted(h, t), f, t)
  {
    var h' := Deleted(h, t);
    assert h' == h[..t] + h[e..] && h'[t] == h[e] == '\n';
    forall j | 0 <= j < e && e - j < |f| ensures !Part(h, f, j, e) {
      NoPartAtEnd(h, f, t, e, j);
    }
    PartBeginsWithNewline(h, f, t, t + |f|);
    assert h'[..t + 1] == h[..t + 1];
    LiveBefore(h, h', f, t);
  }

  /** Partial matches behind the field that is taken out are the same as before, and none reaches
      across its end. */
  lemma {:induction false} PartBehind(h: string, f: string, t: nat, e: nat, j: nat, k: nat)
    requires Cutting(h, f, t, e) && e < k < |h| && j < k
    ensures j >= e ==> (Part(h, f, j, k) <==> Part(Deleted(h, t), f, j - (e - t), k - (e - t)))
    ensures j < e ==> !Part(h, f, j, k)
  {
    if j >= e {
      SliceBehind(h, t, e, j - (e - t), k - j);
      PartMoves(h, Deleted(h, t), f, j, j - (e - t), k - j);
    } else if Part(h, f, j, k) {
      NoNewlineInside(h, f, j, e, k);
    }
  }

  lemma {:induction false} NoPartAcross(h: string, f: string, t: nat, e: nat, k: nat)
    requires Cutting(h, f, t, e) && e < |h| && t < k <= |Deleted(h, t)|
    ensures forall j :: 0 <= j < t ==> !Part(Deleted(h, t), f, j, k)
  {
    var h' := Deleted(h, t);
    forall j | 0 <= j < t ensures !Part(h', f, j, k) {
      if Part(h', f, j, k) { NoNewlineInside(h', f, j, t, k); }
    }
  }

  lemma {:induction false} PartsBehind(h: string, f: string, t: nat, e: nat, k: nat)
    requires Cutting(h, f, t, e) && e < k < |h|
    ensures forall j :: 0 <= j < e ==> !Part(h, f, j, k)
    ensures forall j :: e <= j < k ==> (Part(h, f, j, k) <==> Part(Deleted(h, t), f, j - (e - t), k - (e - t)))
  {
    forall j | 0 <= j < k
      ensures j < e ==> !Part(h, f, j, k)
      ensures j >= e ==> (Part(h, f, j, k) <==> Part(Deleted(h, t), f, j - (e - t), k - (e - t)))
    {
      PartBehind(h, f, t, e, j, k);
    }
  }

  /** Behind the field that is taken out, attempts are made at the same places as before. */
  lemma {:induction false} LiveBehind(h: string, f: string, t: nat, e: nat, k: nat)
    requires Cutting(h, f, t, e) && e <= k < |h|
    ensures k - (e - t) < |Deleted(h, t)| && Deleted(h, t)[k - (e - t)] == h[k]
    ensures Live(h, f, k) <==> Live(Deleted(h, t), f, k - (e - t))
    decreases k
  {
    if k == e {
      EndIsLive(h, f, t, e);
    } else {
      forall j | e <= j < k
        ensures Live(h, f, j) <==> Live(Deleted(h, t), f, j - (e - t))
      {
        LiveBehind(h, f, t, e, j);
      }
      PartsBehind(h, f, t, e, k);
      NoPartAcross(h, f, t, e, k - (e - t));
      LiveFollows(h, Deleted(h, t), f, e, t, k, k - (e - t));
    }
  }

  lemma {:induction false} LiveFollows(h: string, h': string, f: string, from: nat, from': nat, k: nat, k': nat)
    requires from <= k < |h| && from' <= k' < |h'| && k - from == k' - from' && h[k] == h'[k']
    requires forall j :: 0 <= j < from ==> !Part(h, f, j, k)
    requires forall j :: 0 <= j < from' ==> !Part(h', f, j, k')
    requires forall j :: from <= j < k ==>
      && (Part(h, f, j, k) <==> Part(h', f, j - (from - from'), k'))
      && (Live(h, f, j) <==> Live(h', f, j - (from - from')))
    ensures Live(h, f, k) <==> Live(h', f, k')
  {
    forall j | from' <= j < k'
      ensures Part(h', f, j, k') <==> Part(h, f, j + (from - from'), k)
      ensures Live(h', f, j) <==> Live(h, f, j + (from - from'))
    {
      assert Part(h, f, j + (from - from'), k) <==> Part(h', f, (j + (from - from')) - (from - from'), k');
    }
  }

  // ---------- the result ----------

  /** Inside a field that is taken out there is no occurrence but the one at its beginning. */
  lemma {:induction false} NoMatchInside(h: string, f: string, t: nat, e: nat, k: nat)
    requires Cutting(h, f, t, e) && t < k < e
    ensures !MatchesAt(h, f, k)
  {
    if MatchesAt(h, f, k) { MatchEndsField(h, f, k); }
  }

  lemma {:induction false} MatchEndsField(h: string, f: string, k: nat)
    requires IsFieldName(f) && MatchesAt(h, f, k)
    ensures EndsField(h, k)
  {
    PartBeginsWithNewline(h, f, k, k + |f|);
    assert Same(h[k + 1], f[1]);
  }

  /** Before the field that is taken out, occurrences stay where they are. */
  lemma {:induction false} MatchBefore(h: string, f: string, t: nat, e: nat, k: nat)
    requires Cutting(h, f, t, e) && k < t
    ensures MatchesAt(h, f, k) <==> MatchesAt(Deleted(h, t), f, k)
    ensures Live(h, f, k) <==> Live(Deleted(h, t), f, k)
  {
    var h' := Deleted(h, t);
    PartBeginsWithNewline(h, f, t, t + |f|);
    assert h'[..k + 1] == h[..k + 1];
    LiveBefore(h, h', f, k);
    if k + |f| <= t {
      PartMoves(h, h', f, k, k, |f|);
    } else {
      if MatchesAt(h, f, k) { NoNewlineInside(h, f, k, t, k + |f|); }
      if MatchesAt(h', f, k) { NoNewlineInside(h', f, k, t, k + |f|); }
    }
  }

  /** Behind it they move down. */
  lemma {:induction false} MatchBehind(h: string, f: string, t: nat, e: nat, k: nat)
    requires Cutting(h, f, t, e) && e <= k < |h|
    ensures k - (e - t) < |Deleted(h, t)|
    ensures MatchesAt(h, f, k) <==> MatchesAt(Deleted(h, t), f, k - (e - t))
  {
    if k + |f| <= |h| {
      SliceBehind(h, t, e, k - (e - t), |f|);
      PartMoves(h, Deleted(h, t), f, k, k - (e - t), |f|);
    }
  }

  lemma {:induction false} HiddenMoves(h: string, f: string, t: nat, e: nat, k: nat)
    requires Cutting(h, f, t, e)
    ensures k < t ==> (HiddenAt(h, f, k) <==> HiddenAt(Deleted(h, t), f, k))
    ensures t <= k < e ==> !HiddenAt(h, f, k)
    ensures e <= k < |h| ==> (HiddenAt(h, f, k) <==> HiddenAt(Deleted(h, t), f, k - (e - t)))
  {
    if k < t {
      MatchBefore(h, f, t, e, k);
    } else if t < k < e {
      NoMatchInside(h, f, t, e, k);
    } else if e <= k < |h| {
      MatchBehind(h, f, t, e, k);
      LiveBehind(h, f, t, e, k);
    }
  }

  /** Taking out a field hides no occurrence and brings none to light. */
  lemma {:induction false} HiddenStaysHidden(h: string, f: string, t: nat, e: nat)
    requires Cutting(h, f, t, e)
    ensures Hidden(h, f) <==> Hidden(Deleted(h, t), f)
  {
    if k: nat :| HiddenAt(h, f, k) {
      HiddenMoves(h, f, t, e, k);
    }
    if k: nat :| HiddenAt(Deleted(h, t), f, k) {
      HiddenMoves(h, f, t, e, if k < t then k else k + (e - t));
    }
  }

  /** Where the headers begin with the field, or with its name alone, they still do when another
      field has been taken out, and where they do not, they still do not. */
  lemma {:induction false} StartStays(h: string, f: string, t: nat, e: nat)
    requires Cutting(h, f, t, e)
    ensures MatchesAt(Deleted(h, t), f, 0) <==> MatchesAt(h, f, 0)
    ensures MatchesAt(Deleted(h, t), f[1..], 0) <==> MatchesAt(h, f[1..], 0)
  {
    MatchBefore(h, f, t, e, 0);
    PartBeginsWithNewline(h, f, t, t + |f|);
    var h' := Deleted(h, t);
    if t < |f| - 1 {
      if MatchesAt(h, f[1..], 0) { NameIsOneLine(h, f, t); }
      if MatchesAt(h', f[1..], 0) { NameIsOneLine(h', f, t); }
    } else {
      assert h[..t] == h'[..t];
      assert h[0..|f| - 1] == h[..t][..|f| - 1] && h'[0..|f| - 1] == h'[..t][..|f| - 1];
      PartMoves(h, h', f[1..], 0, 0, |f| - 1);
    }
  }

  lemma {:induction false} NameIsOneLine(h: string, f: string, t: nat)
    requires IsNeedle(f) && MatchesAt(h, f[1..], 0) && t < |f| - 1
    ensures t < |h| && h[t] != '\n'
  {
    assert Same(h[0 + t], f[1..][t]);
  }

  /** What the search finds in headers that do not begin with it is a field to be cut out. */
  lemma {:induction false} FoundIsCut(h: string, f: string, t: nat)
    requires IsFieldName(f) && !MatchesAt(h, f, 0) && Search(h, f) == Some(t)
    ensures t + 1 <= |h| && Cutting(h, f, t, FieldEnd(h, t + 1))
  {
    SearchFindsFirstLive(h, f);
    PartBeginsWithNewline(h, f, t, t + |f|);
  }

  /** For headers that do not begin with the field: after stripping an occurrence is left if and
      only if the headers had one that the search makes no attempt at. */
  lemma {:induction false} LeftBehindIffHidden(h: string, f: string)
    requires IsFieldName(f) && PlainStart(h, f)
    ensures Occurs(Strip(h, f), f) <==> Hidden(h, f)
    decreases |h|
  {
    GetFieldIsSound(h, f);
    SearchFindsFirstLive(h, f);
    match Search(h, f)
    case None =>
      assert forall k: nat :: k < |h| && MatchesAt(h, f, k) ==> HiddenAt(h, f, k);
    case Some(t) =>
      FoundIsCut(h, f, t);
      HiddenStaysHidden(h, f, t, FieldEnd(h, t + 1));
      StartStays(h, f, t, FieldEnd(h, t + 1));
      LeftBehindIffHidden(Deleted(h, t), f);
  }

  // ---------- headers that begin with the field ----------

  /** A suffix of headers without any occurrence has none either. */
  lemma {:induction false} NoneInSuffix(h: string, f: string, n: nat)
    requires n <= |h| && f != "" && forall k: nat :: k < |h| ==> !MatchesAt(h, f, k)
    ensures forall k: nat :: k < |h| - n ==> !MatchesAt(h[n..], f, k)
  {
    forall k: nat | k < |h| - n ensures !MatchesAt(h[n..], f, k) {
      if k + |f| <= |h| - n {
        assert h[n..][k..k + |f|] == h[n + k..n + k + |f|];
        PartMoves(h[n..], h, f, k, n + k, |f|);
        assert !MatchesAt(h, f, n + k);
      }
    }
  }

  /** The name at the start of what follows a newline is an occurrence at that newline. */
  lemma {:induction false} NameBehindNewline(h: string, f: string, e: nat)
    requires IsNeedle(f) && e < |h| && h[e] == '\n' && MatchesAt(h[e + 1..], f[1..], 0)
    ensures MatchesAt(h, f, e)
  {
    var tail := h[e + 1..];
    forall i | 0 <= i < |f| ensures Same(h[e + i], f[i]) {
      if i > 0 { assert Same(tail[0 + (i - 1)], f[1..][i - 1]); }
    }
  }

  lemma {:induction false} NothingIsFound(h: string, f: string)
    requires IsNeedle(f) && forall k: nat :: k < |h| ==> !MatchesAt(h, f, k)
    ensures Search(h, f) == None
  {
    ScanIsSound(h, f, 0, 0);
  }

  /** Once no occurrence is left, taking out the name at the start leaves the headers stripped. */
  lemma {:induction false} LastRound(h: string, f: string)
    requires IsNeedle(f) && MatchesAt(h, f[1..], 0) && forall k: nat :: k < |h| ==> !MatchesAt(h, f, k)
    ensures !Occurs(Strip(h, f), f) && !MatchesAt(Strip(h, f), f[1..], 0)
  {
    var e := FieldEnd(h, 1);
    NothingIsFound(h, f);
    GetFieldIsSound(h, f);
    var h' := Deleted(h, 0);
    if e < |h| {
      assert h' == h[e + 1..];
      NoneInSuffix(h, f, e + 1);
      if MatchesAt(h', f[1..], 0) { NameBehindNewline(h, f, e); }
    }
    NothingIsFound(h', f);
  }

  /** For headers that do not begin with a newline and the name, and in particular for those that
      begin with the name alone: if the search makes an attempt at every occurrence, the field is
      really gone. */
  lemma {:induction false} AttemptedIsStripped(h: string, f: string)
    requires IsFieldName(f) && !MatchesAt(h, f, 0) && !Hidden(h, f)
    ensures !Occurs(Strip(h, f), f) && !MatchesAt(Strip(h, f), f[1..], 0)
    decreases |h|
  {
    GetFieldIsSound(h, f);
    SearchFindsFirstLive(h, f);
    match Search(h, f)
    case None =>
      forall k: nat | k < |h| ensures !MatchesAt(h, f, k) { assert !HiddenAt(h, f, k); }
      if MatchesAt(h, f[1..], 0) { LastRound(h, f); }
    case Some(t) =>
      FoundIsCut(h, f, t);
      HiddenStaysHidden(h, f, t, FieldEnd(h, t + 1));
      StartStays(h, f, t, FieldEnd(h, t + 1));
      AttemptedIsStripped(Deleted(h, t), f);
  }

  /** The headers without any of the fields that the search finds. */
  function Unfound(h: string, f: string): (r: string)
    requires |f| >= 2
    ensures |r| <= |h|
    decreases |h|
  {
    GetFieldIsSound(h, f);
    match Search(h, f)
    case None => h
    case Some(t) => Unfound(Deleted(h, t), f)
  }

  /** Whether an occurrence will be left, for headers with any beginning: a field right at the
      start goes first, a name alone at the start goes when the search finds nothing else, and
      each takes the next line's newline with it. Behind them it is the hidden ones that stay. */
  ghost predicate Keeps(h: string, f: string)
    requires |f| >= 2
    decreases |h|
  {
    if MatchesAt(h, f, 0) then Keeps(Deleted(h, 0), f)
    else if MatchesAt(h, f[1..], 0) && Unfound(h, f) != "" then Keeps(Deleted(Unfound(h, f), 0), f)
    else Hidden(h, f)
  }

  lemma {:induction false} FieldAtStartGoesFirst(h: string, f: string)
    requires IsNeedle(f) && MatchesAt(h, f, 0)
    ensures Strip(h, f) == Strip(Deleted(h, 0), f)
  {
    SearchFindsFirstLive(h, f);
    assert Same(h[0 + 0], f[0]);
    assert Live(h, f, 0);
  }

  /** What the search finds goes before a name at the start, which stays there until then. */
  lemma {:induction false} NameAtStartGoesLast(h: string, f: string)
    requires IsFieldName(f) && !MatchesAt(h, f, 0) && MatchesAt(h, f[1..], 0)
    ensures MatchesAt(Unfound(h, f), f[1..], 0) && Strip(h, f) == Strip(Deleted(Unfound(h, f), 0), f)
    decreases |h|
  {
    GetFieldIsSound(h, f);
    match Search(h, f)
    case None =>
    case Some(t) =>
      FoundIsCut(h, f, t);
      StartStays(h, f, t, FieldEnd(h, t + 1));
      NameAtStartGoesLast(Deleted(h, t), f);
  }

  /** For all headers: an occurrence is left if and only if they keep one. */
  lemma {:induction false} LeftBehindIffKept(h: string, f: string)
    requires IsFieldName(f)
    ensures Occurs(Strip(h, f), f) <==> Keeps(h, f)
    decreases |h|
  {
    if MatchesAt(h, f, 0) {
      FieldAtStartGoesFirst(h, f);
      LeftBehindIffKept(Deleted(h, 0), f);
    } else if MatchesAt(h, f[1..], 0) {
      NameAtStartGoesLast(h, f);
      LeftBehindIffKept(Deleted(Unfound(h, f), 0), f);
    } else {
      LeftBehindIffHidden(h, f);
    }
  }

  /** A hidden occurrence behind a name at the start can come to light when that is taken out. */
  lemma {:induction false} HiddenIsStripped(h: string, f: string)
    requires f == "\nx" && h == "x\n\nx"
    ensures Strip(h, f) == "" && HiddenAt(h, f, 2)
  {
    assert Live(h, f, 1) && Part(h, f, 1, 2);
    SearchFindsFirstLive(h, f);
    assert FieldEnd(h, 1) == 1;
    assert Deleted(h, 0) == f;
    assert FieldEnd(f, 1) == 2 && Deleted(f, 0) == "";
    FieldAtStartGoesFirst(f, f);
  }

  /** An attempted occurrence can be hidden when a field at the start is taken out. */
  lemma {:induction false} AttemptedIsKept(h: string, f: string)
    requires f == "\nx" && h == "\nx\n\n\nx"
    ensures Strip(h, f) == "\n\nx" && Occurs(Strip(h, f), f) && !Hidden(h, f)
  {
    var rest := ['\n'] + f;
    assert FieldEnd(h, 1) == 2;
    assert Deleted(h, 0) == rest;
    FieldAtStartGoesFirst(h, f);
    EmptyLineKeepsField(f, "");
    assert rest + "" == rest;
    forall k: nat ensures !HiddenAt(h, f, k) {
      AllAreAttempted(h, f, k);
    }
  }

  lemma {:induction false} AllAreAttempted(h: string, f: string, k: nat)
    requires f == "\nx" && h == "\nx\n\n\nx"
    ensures !HiddenAt(h, f, k)
  {
    if MatchesAt(h, f, k) {
      assert Same(h[k + 0], f[0]) && Same(h[k + 1], f[1]);
      assert k == 0 || k == 4;
      assert Live(h, f, 2) && Part(h, f, 2, 3) && !Live(h, f, 3);
    }
  }

  /** A name that begins with a blank is different: a continuation line can break off a partial
      match, and taking it out with the field brings a line behind it into the search's way. */
  lemma {:induction false} BlankNameIsHiddenLater()
    ensures var f, h := "\n x", "a\n x\n \n\n x";
      IsNeedle(f) && PlainStart(h, f) && Occurs(Strip(h, f), f) && !Hidden(h, f)
  {
    var f, h := "\n x", "a\n x\n \n\n x";
    BlankNameIsKept();
    assert !MatchesAt(h, f[1..], 0) by { assert h[0] == 'a' && f[1..][0] == ' '; }
    forall k: nat ensures !HiddenAt(h, f, k) {
      BlankNameIsAttempted(h, f, k);
    }
  }

  lemma {:induction false} BlankNameIsKept()
    ensures var f, h := "\n x", "a\n x\n \n\n x"; Occurs(Strip(h, f), f)
  {
    var f, h, h' := "\n x", "a\n x\n \n\n x", "a\n\n x";
    assert Scan(h, f, 0, 0) == Some(1);
    assert FieldEnd(h, 2) == 6;
    assert Deleted(h, 1) == h';
    assert Scan(h', f, 0, 0) == None && !MatchesAt(h', f[1..], 0);
    assert Strip(h', f) == h' && MatchesAt(h', f, 2);
  }

  lemma {:induction false} BlankNameIsAttempted(h: string, f: string, k: nat)
    requires f == "\n x" && h == "a\n x\n \n\n x"
    ensures !HiddenAt(h, f, k)
  {
    if MatchesAt(h, f, k) {
      assert Same(h[k + 0], f[0]) && Same(h[k + 2], f[2]);
      assert k == 1 || k == 7;
      assert Live(h, f, 4) && Part(h, f, 4, 6) && !Live(h, f, 6);
    }
  }
}
