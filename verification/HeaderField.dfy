/** Finding and stripping fields in a block of message headers (src/readpst.c). A field is
    looked for as a newline followed by its name. */
module HeaderField {
  import opened Common

  function ToLower(c: char): char { if 'A' <= c <= 'Z' then c + 32 as char else c }

  predicate Same(a: char, b: char) { ToLower(a) == ToLower(b) }

  /** h[k..x] is the beginning of f, but for case. */
  predicate Part(h: string, f: string, k: nat, x: nat) {
    k <= x <= |h| && x - k <= |f| && forall i :: 0 <= i < x - k ==> Same(h[k + i], f[i])
  }

  predicate MatchesAt(h: string, f: string, k: nat) { Part(h, f, k, k + |f|) }

  // ---------- my_stristr ----------

  /** The search as it goes on from haystack position x with y needle characters matched. On a
      mismatch it starts over behind the character that did not match. */
  function Scan(h: string, f: string, x: nat, y: nat): Option<nat>
    requires y <= x <= |h| && y <= |f|
    decreases |h| - x
  {
    if y == |f| then if y > 0 then Some(x - y) else None
    else if x == |h| then None
    else if Same(f[y], h[x]) then Scan(h, f, x + 1, y + 1)
    else Scan(h, f, x + 1, 0)
  }

  function Search(h: string, f: string): Option<nat> { Scan(h, f, 0, 0) }

  method MyStristr(h: string, f: string) returns (r: Option<nat>)
    ensures r == Search(h, f)
  {
    var x: nat, y: nat := 0, 0;
    var z: Option<nat> := None;
    while y < |f| && x < |h|
      invariant y <= x <= |h| && y <= |f|
      invariant z == if y > 0 then Some(x - y) else None
      invariant Scan(h, f, x, y) == Search(h, f)
      decreases |h| - x
    {
      if Same(f[y], h[x]) {
        y := y + 1;
        if z.None? { z := Some(x); }
      } else {
        y := 0;
        z := None;
      }
      x := x + 1;
    }
    if y < |f| {
      return None;
    }
    return z;
  }

  /** The search makes an attempt at k: the character fits, and no attempt made earlier has
      just matched up to k and stops there. */
  predicate Live(h: string, f: string, k: nat)
    decreases k
  {
    k < |h| && f != "" && Same(h[k], f[0]) &&
    forall j :: 0 <= j < k && k - j < |f| && Part(h, f, j, k) ==> !Live(h, f, j)
  }

  /** What is known when the search stands at x with y characters matched. */
  ghost predicate Searching(h: string, f: string, x: nat, y: nat) {
    && y <= x <= |h| && y <= |f|
    && (y > 0 ==> Live(h, f, x - y) && Part(h, f, x - y, x))
    && (forall j :: 0 <= j < x && Part(h, f, j, x) && Live(h, f, j) ==> y > 0 && j == x - y)
    && (forall j :: 0 <= j && j + |f| < x && MatchesAt(h, f, j) ==> !Live(h, f, j))
  }

  lemma {:induction false} SearchingStep(h: string, f: string, x: nat, y: nat)
    requires Searching(h, f, x, y) && x < |h| && y < |f|
    ensures Searching(h, f, x + 1, if Same(f[y], h[x]) then y + 1 else 0)
  {
    var y' := if Same(f[y], h[x]) then y + 1 else 0;
    if y > 0 {
      assert Live(h, f, x - y) && Part(h, f, x - y, x);
    }
    if y' == 1 { assert Live(h, f, x); }
    forall j | 0 <= j < x + 1 && Part(h, f, j, x + 1) && Live(h, f, j)
      ensures y' > 0 && j == x + 1 - y'
    {
      assert Same(h[j + (x - j)], f[x - j]);
      if j < x { assert Part(h, f, j, x); }
    }
    forall j | 0 <= j && j + |f| < x + 1 && MatchesAt(h, f, j)
      ensures !Live(h, f, j)
    {
      if j + |f| == x && Live(h, f, j) { assert Part(h, f, j, x); }
    }
  }

  lemma {:induction false} ScanFinds(h: string, f: string, x: nat, y: nat)
    requires Searching(h, f, x, y)
    ensures match Scan(h, f, x, y)
      case Some(k) =>
        && MatchesAt(h, f, k) && Live(h, f, k)
        && forall j :: 0 <= j < k && MatchesAt(h, f, j) ==> !Live(h, f, j)
      case None => forall j :: 0 <= j && MatchesAt(h, f, j) ==> !Live(h, f, j)
    decreases |h| - x
  {
    if y == |f| {
    } else if x == |h| {
      forall j | 0 <= j && MatchesAt(h, f, j) ensures !Live(h, f, j) {
        if j + |f| == x && Live(h, f, j) { assert Part(h, f, j, x); }
      }
    } else {
      SearchingStep(h, f, x, y);
      ScanFinds(h, f, x + 1, if Same(f[y], h[x]) then y + 1 else 0);
    }
  }

  /** For every needle the search finds the first match that it makes an attempt at, and nothing
      exactly when there is no such match. */
  lemma {:induction false} SearchFindsFirstLive(h: string, f: string)
    ensures match Search(h, f)
      case Some(k) =>
        && MatchesAt(h, f, k) && Live(h, f, k)
        && forall j :: 0 <= j < k && MatchesAt(h, f, j) ==> !Live(h, f, j)
      case None => forall j :: 0 <= j && MatchesAt(h, f, j) ==> !Live(h, f, j)
  {
    ScanFinds(h, f, 0, 0);
  }

  /** Whatever the needle, what is found is a match. */
  lemma {:induction false} ScanIsSound(h: string, f: string, x: nat, y: nat)
    requires y <= x <= |h| && y <= |f| && Part(h, f, x - y, x)
    ensures Scan(h, f, x, y).Some? ==> MatchesAt(h, f, Scan(h, f, x, y).value)
    decreases |h| - x
  {
    if y < |f| && x < |h| {
      if Same(f[y], h[x]) {
        ScanIsSound(h, f, x + 1, y + 1);
      } else {
        ScanIsSound(h, f, x + 1, 0);
      }
    }
  }

  /** All characters of f are the same, but for case. */
  predicate Uniform(f: string) { forall i :: 0 <= i < |f| ==> Same(f[i], f[0]) }

  /** The search misses no needle that is there. */
  ghost predicate Complete(f: string) {
    forall h, k: nat :: MatchesAt(h, f, k) ==> Search(h, f).Some?
  }

  /** The search is complete for uniform needles only. For any other, it overlooks a match that
      begins right behind its first character, since it does not back up. */
  lemma {:induction false} CompleteIffUniform(f: string)
    requires f != ""
    ensures Complete(f) <==> Uniform(f)
  {
    if Uniform(f) {
      forall h, k: nat | MatchesAt(h, f, k) ensures Search(h, f).Some? {
        UniformIsFound(h, f, k);
      }
    } else {
      SecondIsOverlooked(f);
      assert MatchesAt([f[0]] + f, f, 1);
    }
  }

  lemma {:induction false} UniformIsFound(h: string, f: string, k: nat)
    requires f != "" && Uniform(f) && MatchesAt(h, f, k)
    ensures Search(h, f).Some?
  {
    SearchFindsFirstLive(h, f);
    assert Same(h[k + 0], f[0]);
    if !Live(h, f, k) {
      var j: nat :| j < k && k - j < |f| && Part(h, f, j, k) && Live(h, f, j);
      forall i | 0 <= i < |f| ensures Same(h[j + i], f[i]) {
        assert j + i >= k ==> Same(h[k + (j + i - k)], f[j + i - k]);
      }
      assert MatchesAt(h, f, j);
    }
  }

  lemma {:induction false} SecondIsOverlooked(f: string)
    requires f != "" && !Uniform(f)
    ensures MatchesAt([f[0]] + f, f, 1) && Search([f[0]] + f, f) == None
  {
    var h := [f[0]] + f;
    var p := FirstChange(f, 1);
    SearchFindsFirstLive(h, f);
    assert Live(h, f, 0) && Part(h, f, 0, 1);
    assert !Live(h, f, 1);
    assert !Same(h[0 + p], f[p]);
  }

  lemma {:induction false} FirstChange(f: string, i: nat) returns (p: nat)
    requires 1 <= i <= |f| && !Uniform(f) && forall k :: 0 <= k < i ==> Same(f[k], f[0])
    ensures 1 <= p < |f| && !Same(f[p - 1], f[p])
    decreases |f| - i
  {
    if i < |f| && Same(f[i], f[0]) {
      p := FirstChange(f, i + 1);
    } else {
      p := i;
    }
  }

  // ---------- fields ----------

  /** Where the field named f begins: after the search, the very start of the headers is tried
      as well, where no newline comes before the name. */
  function GetField(h: string, f: string): Option<nat>
    requires f != ""
  {
    match Search(h, f)
    case Some(k) => Some(k)
    case None => if MatchesAt(h, f[1..], 0) then Some(0) else None
  }

  lemma {:induction false} GetFieldIsSound(h: string, f: string)
    requires |f| >= 2
    ensures match GetField(h, f)
      case Some(t) => t < |h| && (MatchesAt(h, f, t) || (t == 0 && MatchesAt(h, f[1..], 0)))
      case None => true
  {
    ScanIsSound(h, f, 0, 0);
  }

  /** A newline that is not followed by a space or a tab, which would continue the field. */
  predicate EndsField(h: string, e: nat) {
    e < |h| && h[e] == '\n' && (e + 1 < |h| ==> h[e + 1] != ' ' && h[e + 1] != '\t')
  }

  /** The first such newline from e on, or the end of the headers. */
  function FieldEnd(h: string, e: nat): (r: nat)
    requires e <= |h|
    ensures e <= r <= |h| && (r < |h| ==> EndsField(h, r))
    ensures forall k :: e <= k < r ==> !EndsField(h, k)
    decreases |h| - e
  {
    if e == |h| || EndsField(h, e) then e else FieldEnd(h, e + 1)
  }

  /** The headers without the field that begins at t. Its closing newline stays, as the one that
      begins the next field, unless t is the very start. */
  function Deleted(h: string, t: nat): string
    requires t < |h|
  {
    var e := FieldEnd(h, t + 1);
    h[..t] + if e == |h| then "" else if t == 0 then h[e + 1..] else h[e..]
  }

  /** The headers after all rounds of stripping. Every round makes them shorter. */
  function Strip(h: string, f: string): string
    requires |f| >= 2
    decreases |h|
  {
    GetFieldIsSound(h, f);
    match GetField(h, f)
    case None => h
    case Some(t) => Strip(Deleted(h, t), f)
  }

  /** Stripping ends with headers in which the field is not found: what may be left of it are
      occurrences that the search passes over. */
  lemma {:induction false} StripReachesFixpoint(h: string, f: string)
    requires |f| >= 2
    ensures GetField(Strip(h, f), f) == None && |Strip(h, f)| <= |h|
    ensures Strip(h, f) == h <==> GetField(h, f) == None
    ensures forall k :: 0 <= k && MatchesAt(Strip(h, f), f, k) ==> !Live(Strip(h, f), f, k)
    decreases |h|
  {
    GetFieldIsSound(h, f);
    if GetField(h, f).Some? {
      StripReachesFixpoint(Deleted(h, GetField(h, f).value), f);
    } else {
      SearchFindsFirstLive(h, f);
    }
  }

  /** One field taken out: it begins at a genuine match and runs to its unfolded end. */
  predicate TakesOut(h: string, h': string, f: string, t: nat) {
    && t < |h| && f != ""
    && (MatchesAt(h, f, t) || (t == 0 && MatchesAt(h, f[1..], 0)))
    && h' == Deleted(h, t)
  }

  /** Nothing is ever removed but such fields, one after the other: there is a chain of headers
      from h to the result, each without the field at the given place of the one before. */
  lemma {:induction false} StripTakesOutFields(h: string, f: string) returns (steps: seq<string>, at: seq<nat>)
    requires |f| >= 2
    ensures |steps| == |at| + 1 && steps[0] == h && steps[|at|] == Strip(h, f)
    ensures forall i :: 0 <= i < |at| ==> TakesOut(steps[i], steps[i + 1], f, at[i]) && |steps[i + 1]| < |steps[i]|
    decreases |h|
  {
    GetFieldIsSound(h, f);
    match GetField(h, f)
    case None => steps, at := [h], [];
    case Some(t) =>
      var later, after := StripTakesOutFields(Deleted(h, t), f);
      steps, at := [h] + later, [t] + after;
      forall i | 0 <= i < |at| ensures TakesOut(steps[i], steps[i + 1], f, at[i]) {
        if i > 0 { assert TakesOut(later[i - 1], later[i], f, after[i - 1]); }
      }
  }

  /** What is taken out, character by character: from t up to the first newline behind it that
      no space or tab follows; at the very start that newline goes as well, and without one
      everything from t on does. */
  lemma {:induction false} DeletedIsField(h: string, t: nat, e: nat)
    requires t < e <= |h|
    requires e < |h| ==> h[e] == '\n' && (e + 1 == |h| || (h[e + 1] != ' ' && h[e + 1] != '\t'))
    requires forall k :: t < k < e && h[k] == '\n' ==> k + 1 < |h| && (h[k + 1] == ' ' || h[k + 1] == '\t')
    ensures Deleted(h, t) == if e == |h| then h[..t] else if t == 0 then h[e + 1..] else h[..t] + h[e..]
  {
    EndIsFirst(h, t + 1, e);
  }

  // ---------- upper and lower case ----------

  /** Equal, or the same letter of ASCII in upper and in lower case. */
  predicate SameLetter(a: char, b: char) {
    || a == b
    || ('A' <= a <= 'Z' && b as int == a as int + 32)
    || ('A' <= b <= 'Z' && a as int == b as int + 32)
  }

  lemma {:induction false} SameIffSameLetter(a: char, b: char)
    ensures Same(a, b) <==> SameLetter(a, b)
  {
    CodeOfLower(a);
    CodeOfLower(b);
  }

  lemma {:induction false} CodeOfLower(c: char)
    ensures ToLower(c) as int == if 65 <= c as int <= 90 then c as int + 32 else c as int
  {
  }

  /** The two names differ in the case of letters at most. */
  predicate SameName(f: string, g: string) {
    |f| == |g| && forall i :: 0 <= i < |f| ==> SameLetter(f[i], g[i])
  }

  lemma {:induction false} SameMatches(h: string, f: string, g: string, k: nat)
    requires SameName(f, g)
    ensures MatchesAt(h, f, k) <==> MatchesAt(h, g, k)
  {
    forall i | 0 <= i < |f| ensures Same(f[i], g[i]) { SameIffSameLetter(f[i], g[i]); }
  }

  lemma {:induction false} SameScan(h: string, f: string, g: string, x: nat, y: nat)
    requires SameName(f, g) && y <= x <= |h| && y <= |f|
    ensures Scan(h, f, x, y) == Scan(h, g, x, y)
    decreases |h| - x
  {
    if y < |f| && x < |h| {
      SameIffSameLetter(f[y], g[y]);
      SameScan(h, f, g, x + 1, if Same(f[y], h[x]) then y + 1 else 0);
    }
  }

  /** The case in which the field is named does not matter. */
  lemma {:induction false} CaseDoesNotMatter(h: string, f: string, g: string)
    requires SameName(f, g) && |f| >= 2
    ensures GetField(h, f) == GetField(h, g)
    ensures Strip(h, f) == Strip(h, g)
    decreases |h|
  {
    SameScan(h, f, g, 0, 0);
    assert SameName(f[1..], g[1..]);
    SameMatches(h, f[1..], g[1..], 0);
    GetFieldIsSound(h, f);
    match GetField(h, f) {
      case None =>
      case Some(t) => CaseDoesNotMatter(Deleted(h, t), f, g);
    }
  }

  // ---------- the C functions ----------

  method HeaderGetField(h: string, f: string) returns (t: Option<nat>)
    requires f != ""
    ensures t == GetField(h, f)
  {
    t := MyStristr(h, f);
    if t.None? {
      // strncasecmp of the headers with the name, without the newline
      var n := 0;
      while n < |f| - 1 && n < |h| && Same(h[n], f[n + 1])
        invariant 0 <= n <= |f| - 1 && n <= |h|
        invariant forall i :: 0 <= i < n ==> Same(h[0 + i], f[1..][i])
      {
        n := n + 1;
      }
      if n == |f| - 1 {
        t := Some(0);
      } else {
        assert n == |h| || !Same(h[0 + n], f[1..][n]);
      }
    }
  }

  /** strchr for a newline. */
  method NextNewline(h: string, from: nat) returns (e: nat)
    requires from <= |h|
    ensures from <= e <= |h| && (e < |h| ==> h[e] == '\n')
    ensures forall k :: from <= k < e ==> h[k] != '\n'
  {
    e := from;
    while e < |h| && h[e] != '\n'
      invariant from <= e <= |h| && forall k :: from <= k < e ==> h[k] != '\n'
    {
      e := e + 1;
    }
  }

  method HeaderEndField(h: string, t: nat) returns (e: nat)
    requires t < |h|
    ensures e == FieldEnd(h, t + 1)
  {
    e := NextNewline(h, t + 1);
    while e + 1 < |h| && (h[e + 1] == ' ' || h[e + 1] == '\t')
      invariant t + 1 <= e <= |h| && (e < |h| ==> h[e] == '\n')
      invariant forall k :: t + 1 <= k < e ==> !EndsField(h, k)
      decreases |h| - e
    {
      e := NextNewline(h, e + 1);
    }
    EndIsFirst(h, t + 1, e);
  }

  lemma {:induction false} EndIsFirst(h: string, a: nat, e: nat)
    requires a <= e <= |h| && (e < |h| ==> EndsField(h, e)) && forall k :: a <= k < e ==> !EndsField(h, k)
    ensures FieldEnd(h, a) == e
  {
    var r := FieldEnd(h, a);
    assert a <= r < |h| ==> EndsField(h, r);
  }

  lemma {:induction false} Moved(buffer: seq<char>, h: string, t: nat, e: nat)
    requires t <= e <= |h| < |buffer| && '\0' !in h
    requires forall k :: 0 <= k < t ==> buffer[k] == h[k]
    requires forall k :: e <= k < |h| ==> buffer[k - (e - t)] == h[k]
    requires buffer[|h| - (e - t)] == '\0'
    ensures HoldsString(buffer, h[..t] + h[e..])
  {
    var s := h[..t] + h[e..];
    forall k | t <= k < |s| ensures buffer[k] == s[k] {
      assert s[k] == h[k + (e - t)];
    }
  }

  /** Moves the string from e on down to t. */
  method MoveDown(buffer: array<char>, t: nat, e: nat, ghost h: string)
    requires HoldsString(buffer[..], h) && t <= e <= |h|
    modifies buffer
    ensures HoldsString(buffer[..], h[..t] + h[e..])
  {
    assert forall k :: 0 <= k < |h| ==> buffer[k] == buffer[..][..|h|][k];
    var to, from := t, e;
    while buffer[from] != '\0'
      invariant t <= to && from == to + (e - t) && from <= |h|
      invariant forall k :: 0 <= k < t ==> buffer[k] == h[k]
      invariant forall k :: e <= k < from ==> buffer[k - (e - t)] == h[k]
      invariant forall k :: from <= k < |h| ==> buffer[k] == h[k]
      invariant buffer[|h|] == '\0'
      decreases |h| - from
    {
      buffer[to] := buffer[from];
      to := to + 1;
      from := from + 1;
    }
    buffer[to] := '\0';
    Moved(buffer[..], h, t, e);
  }

  /** The body of the loop: takes out the field at t. */
  method StripRound(header: array<char>, t: nat, s: string)
    requires HoldsString(header[..], s) && t < |s|
    modifies header
    ensures HoldsString(header[..], Deleted(s, t))
  {
    var e := HeaderEndField(s, t);
    if e < |s| {
      if t == 0 { e := e + 1; }
      MoveDown(header, t, e, s);
    } else {
      header[t] := '\0';
      assert header[..t] == s[..t];
    }
  }

  method HeaderStripField(header: array<char>, field: string, ghost h: string)
    requires HoldsString(header[..], h) && |field| >= 2
    modifies header
    ensures HoldsString(header[..], Strip(h, field))
  {
    ghost var now := h;
    var s := StringOf(header, h);
    var t := HeaderGetField(s, field);
    while t.Some?
      invariant HoldsString(header[..], now) && s == now && t == GetField(now, field)
      invariant Strip(now, field) == Strip(h, field)
      decreases |now|
    {
      GetFieldIsSound(now, field);
      StripRound(header, t.value, s);
      now := Deleted(now, t.value);
      s := StringOf(header, now);
      t := HeaderGetField(s, field);
    }
  }
}
