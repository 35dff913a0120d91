/**
 The server's path check and the path translation it is applied to
 (afsfuse_server.c): a scan that stops at the third slash.
 */
module PathGuard {

  const NUL := '\0'
  const BUFFER: nat := 512
  const AFS := "/afs"

  predicate IsAllowedChar(c: char) {
    || c == '/' || c == 'p' || c == 'u' || c == 'n' || c == 'e' || c == 'i' || c == 'b' || c == 'm'
    || c == 'c' || c == 'o' || c == 'a' || c == 'f' || c == 's' || c == '.'
  }

  /* ----- The declarative rule ----- */

  function Slashes(s: string): (n: nat)
    ensures n <= |s|
  {
    if s == [] then 0 else (if s[0] == '/' then 1 else 0) + Slashes(s[1..])
  }

  // Every character before the `k`-th slash, or every character if there are fewer, is allowed.
  ghost predicate AllowedUpTo(path: string, k: nat) {
    forall i :: 0 <= i < |path| && Slashes(path[..i + 1]) < k ==> IsAllowedChar(path[i])
  }

  lemma {:induction false} SlashesAppend(s: string, c: char)
    ensures Slashes(s + [c]) == Slashes(s) + if c == '/' then 1 else 0
  {
    if s != [] {
      assert (s + [c])[1..] == s[1..] + [c];
      SlashesAppend(s[1..], c);
    }
  }

  lemma {:induction false} SlashesConcat(s: string, t: string)
    ensures Slashes(s + t) == Slashes(s) + Slashes(t)
  {
    if s == [] {
      assert s + t == t;
    } else {
      assert (s + t)[1..] == s[1..] + t;
      SlashesConcat(s[1..], t);
    }
  }

  lemma SlashesGrow(path: string, i: nat, j: nat)
    requires i <= j <= |path|
    ensures Slashes(path[..i]) <= Slashes(path[..j])
  {
    assert path[..j] == path[..i] + path[i..j];
    SlashesConcat(path[..i], path[i..j]);
  }

  lemma SlashesStep(path: string, i: nat)
    requires i < |path|
    ensures Slashes(path[..i + 1]) == Slashes(path[..i]) + if path[i] == '/' then 1 else 0
  {
    assert path[..i + 1] == path[..i] + [path[i]];
    SlashesAppend(path[..i], path[i]);
  }

  ghost function SlashesBefore(path: string, n: nat): set<nat>
    requires n <= |path|
  {
    set j: nat | j < n && path[j] == '/'
  }

  lemma SlashesBeforeStep(path: string, n: nat)
    requires n < |path|
    ensures n !in SlashesBefore(path, n)
    ensures SlashesBefore(path, n + 1) == SlashesBefore(path, n) + if path[n] == '/' then {n} else {}
  {
  }

  // Counting the slashes up to a place counts the positions that hold one.
  lemma {:induction false} SlashesAreCounted(path: string, n: nat)
    requires n <= |path|
    ensures Slashes(path[..n]) == |SlashesBefore(path, n)|
  {
    if n > 0 {
      SlashesAreCounted(path, n - 1);
      SlashesStep(path, n - 1);
      SlashesBeforeStep(path, n - 1);
    }
  }

  /**
   The rule: each character with fewer than `k` slashes up to and including its
   own position is one of the fourteen.
   */
  lemma RuleMeaning(path: string, k: nat)
    ensures AllowedUpTo(path, k)
            <==> forall i :: 0 <= i < |path| && |set j | 0 <= j <= i && path[j] == '/'| < k ==>
                               path[i] in "/puneibmcoafs."
  {
    forall i | 0 <= i < |path|
      ensures Slashes(path[..i + 1]) == |set j | 0 <= j <= i && path[j] == '/'|
      ensures IsAllowedChar(path[i]) <==> path[i] in "/puneibmcoafs."
    {
      SlashesAreCounted(path, i + 1);
      assert (set j | 0 <= j <= i && path[j] == '/') == SlashesBefore(path, i + 1);
      AllowedChars(path[i]);
    }
  }

  lemma AllowedChars(c: char)
    ensures IsAllowedChar(c) <==> c in "/puneibmcoafs."
  {
    var all := "/puneibmcoafs.";
    assert all[0] == '/' && all[1] == 'p' && all[2] == 'u' && all[3] == 'n' && all[4] == 'e' && all[5] == 'i';
    assert all[6] == 'b';
    assert all[7] == 'm' && all[8] == 'c' && all[9] == 'o' && all[10] == 'a' && all[11] == 'f' && all[12] == 's';
    assert all[13] == '.';
  }

  // Once three slashes are counted, the rule asks nothing more.
  lemma RestIsBeyond(path: string, n: nat)
    requires n <= |path| && Slashes(path[..n]) >= 3
    ensures forall m :: n <= m <= |path| ==> Slashes(path[..m]) >= 3
  {
    forall m | n <= m <= |path| ensures Slashes(path[..m]) >= 3 {
      SlashesGrow(path, n, m);
    }
  }

  /* ----- IsAllowedPath ----- */

  /** The scanner, on the C string `path`: at the loop head it has never counted three slashes. */
  method IsAllowedPath(path: string) returns (allowed: bool)
    ensures allowed <==> AllowedUpTo(path, 3)
  {
    var len := |path|;
    var p := 0;
    var backCount := 0;
    var i := 0;
    while i < len
      invariant i <= len && p == i
      invariant backCount == Slashes(path[..i]) < 3
      invariant forall j :: 0 <= j < i ==> IsAllowedChar(path[j])
    {
      SlashesStep(path, i);
      if path[p] == '/' {
        backCount := backCount + 1;
      }
      if IsAllowedChar(path[p]) {
        if backCount == 3 {
          RestIsBeyond(path, i + 1);
          return true;
        }
        p := p + 1;
      } else if backCount < 3 {
        return false;
      }
      i := i + 1;
    }
    return true;
  }

  /* ----- translatePath ----- */

  // The C string a buffer holds from `from` on.
  function StringAt(buf: seq<char>, from: nat): string
    requires from <= |buf|
    decreases |buf| - from
  {
    if from == |buf| || buf[from] == NUL then [] else [buf[from]] + StringAt(buf, from + 1)
  }

  lemma {:induction false} StringAtIs(buf: seq<char>, from: nat, s: string)
    requires from + |s| < |buf| && buf[from..from + |s|] == s && buf[from + |s|] == NUL && NUL !in s
    ensures StringAt(buf, from) == s
    decreases |s|
  {
    if s != [] {
      assert buf[from] == s[0];
      assert s[0] in s;
      assert buf[from + 1..from + |s|] == s[1..];
      StringAtIs(buf, from + 1, s[1..]);
    }
  }

  // `buf` holds the C string `s` at `from`.
  ghost predicate Holds(buf: seq<char>, from: nat, s: string) {
    from + |s| < |buf| && buf[from..from + |s|] == s && buf[from + |s|] == NUL && NUL !in s
  }

  // `strcat(buf + from, s)`, where `buf` holds `before` at `from`; false when it would run past the buffer.
  method StrCat(buf: array<char>, from: nat, s: string, ghost before: string) returns (ok: bool)
    requires Holds(buf[..], from, before) && NUL !in s
    modifies buf
    ensures ok <==> from + |before| + |s| < buf.Length
    ensures ok ==> Holds(buf[..], from, before + s)
    ensures forall k :: 0 <= k < from ==> buf[k] == old(buf[k])
    ensures !ok ==> buf[..] == old(buf[..])
  {
    StringAtIs(buf[..], from, before);
    var end := from + |StringAt(buf[..], from)|;
    if end + |s| >= buf.Length { return false; }
    forall k | 0 <= k < |s| {
      buf[end + k] := s[k];
    }
    buf[end + |s|] := NUL;
    assert buf[from..end] == before;
    assert buf[end..end + |s|] == s;
    assert buf[..][from..from + |before + s|] == buf[from..end] + buf[end..end + |s|];
    return true;
  }

  /**
   Writes "/afs" and the path into the zeroed buffer. The second append starts
   four characters in, where the buffer holds the empty string.
   */
  method TranslatePath(path: string, lbuff: array<char>) returns (ok: bool)
    requires NUL !in path
    requires lbuff.Length == BUFFER && forall k :: 0 <= k < BUFFER ==> lbuff[k] == NUL
    modifies lbuff
    ensures ok <==> |path| < 508
    ensures ok ==> lbuff[..|path| + 4] == "/afs" + path && lbuff[|path| + 4] == '\0'
  {
    ok := StrCat(lbuff, 0, AFS, []);
    ghost var prefix := lbuff[..|AFS|];
    assert prefix == [] + AFS;
    assert lbuff[..][|AFS|..|AFS|] == [];
    ok := StrCat(lbuff, |AFS|, path, []);
    if ok {
      assert [] + path == path && lbuff[..|AFS|] == prefix;
      HoldsBoth(lbuff[..], AFS, path);
      StringAtIs(lbuff[..], 0, AFS + path);
      lbuff[|StringAt(lbuff[..], 0)|] := NUL;
    }
  }

  lemma HoldsBoth(buf: seq<char>, s: string, t: string)
    requires |s| <= |buf| && buf[..|s|] == s && NUL !in s && Holds(buf, |s|, t)
    ensures Holds(buf, 0, s + t)
  {
    assert buf[0..|s + t|] == buf[..|s|] + buf[|s|..|s| + |t|];
  }

  /* ----- The rule on the caller's path ----- */

  lemma TranslatedSlashes(path: string, n: nat)
    requires n <= |path|
    ensures Slashes((AFS + path)[..n + |AFS|]) == 1 + Slashes(path[..n])
  {
    assert (AFS + path)[..n + |AFS|] == AFS + path[..n];
    SlashesConcat(AFS, path[..n]);
    assert Slashes(AFS) == 1;
  }

  lemma FullRuleGivesRule(path: string)
    requires AllowedUpTo(AFS + path, 3)
    ensures AllowedUpTo(path, 2)
  {
    forall i | 0 <= i < |path| && Slashes(path[..i + 1]) < 2 ensures IsAllowedChar(path[i]) {
      TranslatedSlashes(path, i + 1);
      assert IsAllowedChar((AFS + path)[i + |AFS|]);
    }
  }

  lemma RuleGivesFullRule(path: string)
    requires AllowedUpTo(path, 2)
    ensures AllowedUpTo(AFS + path, 3)
  {
    var full := AFS + path;
    forall i | 0 <= i < |full| && Slashes(full[..i + 1]) < 3 ensures IsAllowedChar(full[i]) {
      if i < |AFS| {
        assert full[i] == AFS[i];
      } else {
        var j := i - |AFS|;
        TranslatedSlashes(path, j + 1);
        assert full[i] == path[j] && IsAllowedChar(path[j]);
      }
    }
  }

  /** The check on the translated path is the same rule on the caller's path, up to its second slash. */
  lemma TranslatedRule(path: string)
    ensures AllowedUpTo(AFS + path, 3) <==> AllowedUpTo(path, 2)
  {
    if AllowedUpTo(AFS + path, 3) { FullRuleGivesRule(path); }
    if AllowedUpTo(path, 2) { RuleGivesFullRule(path); }
  }

  /** What the attribute request does before it touches the file system. */
  datatype Verdict = Overrun | Refused | Granted

  method CheckRequest(path: string) returns (v: Verdict)
    requires NUL !in path
    ensures v == Overrun <==> |path| >= 508
    ensures v == Granted
            <==> && |path| < 508
                 && forall i :: 0 <= i < |path| && |set j | 0 <= j <= i && path[j] == '/'| < 2 ==>
                                  path[i] in "/puneibmcoafs."
  {
    RuleMeaning(path, 2);
    var lbuff := new char[BUFFER](_ => NUL);
    var ok := TranslatePath(path, lbuff);
    if !ok { return Overrun; }
    StringAtIs(lbuff[..], 0, AFS + path);
    var allowed := IsAllowedPath(StringAt(lbuff[..], 0));
    TranslatedRule(path);
    return if allowed then Granted else Refused;
  }
}
