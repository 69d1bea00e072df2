/** NUL-terminated strings in character buffers, and the library calls on them that init/main.c uses. */
module CStrings {
  import opened Machine

  const NUL: char := '\0'

  /** The string that starts at `p`: everything up to the first NUL. */
  function CStr(s: seq<char>, p: nat): (r: string)
    requires p <= |s|
    ensures p + |r| <= |s| && r == s[p..p + |r|] && NoNul(r)
    ensures p + |r| < |s| ==> s[p + |r|] == NUL
    decreases |s| - p
  {
    if p == |s| || s[p] == NUL then [] else [s[p]] + CStr(s, p + 1)
  }

  /** The string at `p` ends inside the buffer. */
  ghost predicate Terminated(s: seq<char>, p: nat) {
    p < |s| && p + |CStr(s, p)| < |s|
  }

  predicate NoNul(t: string) {
    forall i :: 0 <= i < |t| ==> t[i] != NUL
  }

  lemma CStrIs(s: seq<char>, p: nat, t: string)
    requires NoNul(t) && p + |t| < |s| && s[p + |t|] == NUL
    requires forall j :: p <= j < p + |t| ==> s[j] == t[j - p]
    ensures CStr(s, p) == t && Terminated(s, p)
  {
    var r := CStr(s, p);
    assert s[p + |r|] == NUL ==> |r| >= |t|;
    assert forall i :: 0 <= i < |t| ==> s[p + i] == t[i];
  }

  method StrLen(buf: array<char>, p: nat) returns (n: nat)
    requires Terminated(buf[..], p)
    ensures n == |CStr(buf[..], p)|
  {
    n := 0;
    ghost var s := buf[..];
    ghost var r := CStr(s, p);
    while buf[p + n] != NUL
      invariant n <= |r|
      decreases |r| - n
    {
      assert s[p + n] != NUL;
      n := n + 1;
    }
    assert s[p + n] == NUL;
  }

  method StrCpy(buf: array<char>, p: nat, src: string)
    requires p + |src| < buf.Length
    modifies buf
    ensures forall i :: 0 <= i < |src| ==> buf[p + i] == src[i]
    ensures buf[p + |src|] == NUL
    ensures forall i :: 0 <= i < p || p + |src| < i < buf.Length ==> buf[i] == old(buf[i])
  {
    var n := 0;
    while n < |src|
      invariant 0 <= n <= |src|
      invariant forall i :: 0 <= i < n ==> buf[p + i] == src[i]
      invariant forall i :: 0 <= i < p || p + n <= i < buf.Length ==> buf[i] == old(buf[i])
    {
      buf[p + n] := src[n];
      n := n + 1;
    }
    buf[p + n] := NUL;
  }

  /** snprintf to offset `off` of a buffer of `size` characters, for a text that has already been formatted: as much as
      fits, then a NUL; the return value is the full length either way.  Nothing is written past the end, nor at all
      once `off` has reached it. */
  method Snprintf(buf: array<char>, off: nat, size: nat, text: string) returns (ret: nat)
    requires size <= buf.Length
    modifies buf
    ensures ret == |text|
    ensures off >= size ==> buf[..] == old(buf[..])
    ensures off < size ==>
              var n := Min(|text|, size - off - 1);
              && (forall i :: 0 <= i < n ==> buf[off + i] == text[i]) && buf[off + n] == NUL
              && (forall i :: 0 <= i < off || off + n < i < buf.Length ==> buf[i] == old(buf[i]))
  {
    ret := |text|;
    if off < size {
      StrCpy(buf, off, text[..Min(|text|, size - off - 1)]);
    }
  }

  // ----- repair_env_string

  /** What the repair does to the string at `param`, and that it touches nothing outside of the two strings. */
  ghost predicate Repaired(was: seq<char>, now: seq<char>, param: nat, val: nat)
    requires param <= |was| && val <= |was|
  {
    && |now| == |was| && Terminated(now, param) && CStr(now, param) == CStr(was, param) + "=" + CStr(was, val)
    && forall i :: 0 <= i < param || val + |CStr(was, val)| < i < |was| ==> now[i] == was[i]
  }

  /** In place, change the NUL, or the NUL and the quote, between `param` and `val` back to '=', so that `param`
      becomes the whole string.  Any other distance between the two is a bug in the caller. */
  method RepairEnvString(buf: array<char>, param: nat, val: nat) returns (bug: bool)
    requires Terminated(buf[..], param) && Terminated(buf[..], val)
    modifies buf
    ensures var klen := old(|CStr(buf[..], param)|);
            if val == param + klen + 1 || val == param + klen + 2
            then !bug && Repaired(old(buf[..]), buf[..], param, val)
            else bug && buf[..] == old(buf[..])
    ensures !bug ==> && Terminated(buf[..], param)
                     && CStr(buf[..], param) == old(CStr(buf[..], param)) + "=" + old(CStr(buf[..], val))
    ensures bug <==> val != param + old(|CStr(buf[..], param)|) + 1 && val != param + old(|CStr(buf[..], param)|) + 2
  {
    var klen := StrLen(buf, param);
    if val == param + klen + 1 {
      RestoreEquals(buf, param, val);
    } else if val == param + klen + 2 {
      Unquote(buf, param, val);
    } else {
      return true;
    }
    bug := false;
  }

  method RestoreEquals(buf: array<char>, param: nat, val: nat)
    requires Terminated(buf[..], param) && Terminated(buf[..], val) && val == param + |CStr(buf[..], param)| + 1
    modifies buf
    ensures Repaired(old(buf[..]), buf[..], param, val)
  {
    ghost var was := buf[..];
    buf[val - 1] := '=';
    Joined(was, buf[..], param, val, 0);
  }

  /** The quoted case: overwrite the NUL and close the gap the quote leaves. */
  method Unquote(buf: array<char>, param: nat, val: nat)
    requires Terminated(buf[..], param) && Terminated(buf[..], val) && val == param + |CStr(buf[..], param)| + 2
    modifies buf
    ensures Repaired(old(buf[..]), buf[..], param, val)
  {
    ghost var was := buf[..];
    var vlen := StrLen(buf, val);
    buf[val - 2] := '=';
    label before:
    MoveDown(buf, val, vlen + 1);
    forall j | val - 1 <= j < val + vlen
      ensures buf[j] == was[j + 1]
    {
      assert old@before(buf[j + 1]) == was[j + 1];
    }
    Joined(was, buf[..], param, val, 1);
  }

  /** Key, '=' and a value that moved down by `shift` make one string. */
  lemma Joined(was: seq<char>, now: seq<char>, param: nat, val: nat, shift: nat)
    requires Terminated(was, param) && Terminated(was, val) && val == param + |CStr(was, param)| + 1 + shift
    requires |now| == |was| && now[val - 1 - shift] == '='
    requires forall i :: 0 <= i < val - 1 - shift || val + |CStr(was, val)| < i < |was| ==> now[i] == was[i]
    requires forall j :: val - shift <= j <= val - shift + |CStr(was, val)| ==> now[j] == was[j + shift]
    ensures Repaired(was, now, param, val)
  {
    var key, value := CStr(was, param), CStr(was, val);
    var whole := key + "=" + value;
    forall j | param <= j < param + |whole|
      ensures now[j] == whole[j - param] && whole[j - param] != NUL
    {
    }
    assert forall i :: 0 <= i < |whole| ==> whole[i] == now[param + i];
    assert now[val + |value| - shift] == was[val + |value|];
    CStrIs(now, param, whole);
  }

  /** memmove(p - 1, p, n). */
  method MoveDown(buf: array<char>, p: nat, n: nat)
    requires 1 <= p && p + n <= buf.Length
    modifies buf
    ensures forall i :: p <= i < p + n ==> buf[i - 1] == old(buf[i])
    ensures forall i :: 0 <= i < p - 1 || p + n <= i < buf.Length ==> buf[i] == old(buf[i])
  {
    var k := 0;
    while k < n
      invariant 0 <= k <= n
      invariant forall i :: p <= i < p + k ==> buf[i - 1] == old(buf[i])
      invariant forall i :: 0 <= i < p - 1 || p + k <= i < buf.Length ==> buf[i] == old(buf[i])
    {
      buf[p - 1 + k] := buf[p + k];
      k := k + 1;
    }
  }
}
