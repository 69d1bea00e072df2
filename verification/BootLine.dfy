/** The command lines built at boot: sizing and filling a buffer from the boot configuration, and splicing the saved
    command line (init/main.c). */
module BootLine {
  import opened Machine
  import opened CStrings

  // ----- xbc_snprint_cmdline and xbc_make_cmdline

  /** One key of the configuration below the root: its composed name, or the error of composing it, and its values, if
      it has any. */
  datatype Key = Key(name: Option<string>, error: int, values: Option<seq<string>>)

  type Tree = seq<Key>

  ghost predicate WellFormed(t: Tree) {
    forall i :: 0 <= i < |t| ==> t[i].name.None? ==> t[i].error < 0
  }

  function ValueText(name: string, value: string): string {
    name + "=\"" + value + "\" "
  }

  function ValuesText(name: string, values: seq<string>): string {
    if values == [] then ""
    else ValuesText(name, values[..|values| - 1]) + ValueText(name, values[|values| - 1])
  }

  function KeyText(k: Key): string
    requires k.name.Some?
  {
    if k.values.None? then k.name.value + " " else ValuesText(k.name.value, k.values.value)
  }

  predicate AllNamed(t: Tree) {
    forall i :: 0 <= i < |t| ==> t[i].name.Some?
  }

  /** The command line that a configuration stands for. */
  function Render(t: Tree): string
    requires AllNamed(t)
  {
    if t == [] then "" else Render(t[..|t| - 1]) + KeyText(t[|t| - 1])
  }

  lemma RenderSnoc(t: Tree, i: nat)
    requires i < |t| && AllNamed(t[..i]) && t[i].name.Some?
    ensures AllNamed(t[..i + 1]) && Render(t[..i + 1]) == Render(t[..i]) + KeyText(t[i])
  {
    assert t[..i + 1][..i] == t[..i];
  }

  /** One more key is one more piece at the end. */
  lemma RenderAppend(t: Tree, k: Key)
    requires AllNamed(t) && k.name.Some?
    ensures Render([]) == "" && AllNamed(t + [k]) && Render(t + [k]) == Render(t) + Render([k])
  {
    assert (t + [k])[..|t|] == t;
    RenderSingle(k);
  }

  /** A key without a value stands alone; every value repeats its key, in quotes; a space ends each. */
  lemma RenderOne(name: string, error: int, values: seq<string>, value: string)
    ensures Render([Key(Some(name), error, None)]) == name + " "
    ensures Render([Key(Some(name), error, Some([]))]) == ""
    ensures Render([Key(Some(name), error, Some(values + [value]))]) ==
            Render([Key(Some(name), error, Some(values))]) + name + "=\"" + value + "\" "
  {
    RenderSingle(Key(Some(name), error, None));
    RenderSingle(Key(Some(name), error, Some([])));
    RenderSingle(Key(Some(name), error, Some(values)));
    RenderSingle(Key(Some(name), error, Some(values + [value])));
    assert (values + [value])[..|values|] == values;
    assert Render([Key(Some(name), error, Some(values))]) + (name + "=\"" + value + "\" ") ==
           Render([Key(Some(name), error, Some(values))]) + name + "=\"" + value + "\" ";
  }

  lemma RenderSingle(k: Key)
    requires k.name.Some?
    ensures Render([k]) == KeyText(k)
  {
    assert [k][..0] == [] && "" + KeyText(k) == KeyText(k);
  }

  /** A buffer of `size` characters that holds as much of `text` as fits, and a NUL behind it. */
  ghost predicate Holds(b: seq<char>, size: nat, text: string) {
    size <= |b| &&
    (size > 0 && |text| > 0 ==>
      var n := Min(|text|, size - 1);
      b[n] == NUL && forall i :: 0 <= i < n ==> b[i] == text[i])
  }

  lemma HoldsInWords(b: seq<char>, size: nat, text: string)
    requires Holds(b, size, text) && |text| > 0
    ensures |text| < size ==> b[..|text| + 1] == text + [NUL]
    ensures 0 < size <= |text| ==> b[..size] == text[..size - 1] + [NUL]
  {
  }

  /** One more piece, printed right behind the text so far. */
  method PrintPiece(buf: array<char>, size: nat, ghost text: string, off: nat, piece: string) returns (ret: nat)
    requires Holds(buf[..], size, text) && off == |text| && |piece| > 0
    modifies buf
    ensures ret == |piece| && Holds(buf[..], size, text + piece)
  {
    ghost var was := buf[..];
    ret := Snprintf(buf, off, size, piece);
    ghost var all := text + piece;
    if off < size {
      ghost var n := Min(|piece|, size - off - 1);
      assert Min(|all|, size - 1) == off + n;
      forall i | 0 <= i < off + n
        ensures buf[i] == all[i]
      {
        if i >= off {
          assert buf[off + (i - off)] == piece[i - off];
        } else {
          assert was[i] == text[i];
        }
      }
    }
  }

  /** The values of one key, one after the other. */
  method PrintValues(buf: array<char>, size: nat, ghost text: string, off0: nat, name: string, values: seq<string>)
    returns (off: nat)
    requires Holds(buf[..], size, text) && off0 == |text|
    modifies buf
    ensures off == |text + ValuesText(name, values)| && Holds(buf[..], size, text + ValuesText(name, values))
  {
    off := off0;
    assert text + ValuesText(name, values[..0]) == text;
    var j := 0;
    while j < |values|
      invariant 0 <= j <= |values|
      invariant off == |text + ValuesText(name, values[..j])|
      invariant Holds(buf[..], size, text + ValuesText(name, values[..j]))
    {
      ghost var sofar := ValuesText(name, values[..j]);
      var n := PrintPiece(buf, size, text + sofar, off, ValueText(name, values[j]));
      assert values[..j + 1][..j] == values[..j];
      assert text + sofar + ValueText(name, values[j]) == text + ValuesText(name, values[..j + 1]);
      off := off + n;
      j := j + 1;
    }
    assert values[..j] == values;
  }

  method PrintKey(buf: array<char>, size: nat, ghost text: string, off0: nat, k: Key) returns (off: nat)
    requires Holds(buf[..], size, text) && off0 == |text| && k.name.Some?
    modifies buf
    ensures off == |text + KeyText(k)| && Holds(buf[..], size, text + KeyText(k))
  {
    if k.values.None? {
      var n := PrintPiece(buf, size, text, off0, k.name.value + " ");
      off := off0 + n;
    } else {
      off := PrintValues(buf, size, text, off0, k.name.value, k.values.value);
    }
  }

  /** Any size will do: the return value is the full length, and what fits is in the buffer. */
  method XbcSnprintCmdline(buf: array<char>, size: nat, t: Tree) returns (ret: int, ghost bad: nat)
    requires size <= buf.Length && WellFormed(t)
    modifies buf
    ensures AllNamed(t) ==> ret == |Render(t)| && Holds(buf[..], size, Render(t))
    ensures !AllNamed(t) ==> ret < 0 && bad < |t| && AllNamed(t[..bad]) && t[bad].name.None? && ret == t[bad].error
  {
    bad := 0;
    var off := 0;
    ghost var text := "";
    var i := 0;
    while i < |t|
      invariant 0 <= i <= |t| && AllNamed(t[..i])
      invariant text == Render(t[..i]) && off == |text|
      invariant Holds(buf[..], size, text)
    {
      var k := t[i];
      if k.name.None? {
        return k.error, i;
      }
      off := PrintKey(buf, size, text, off, k);
      text := text + KeyText(k);
      RenderSnoc(t, i);
      i := i + 1;
    }
    assert t[..i] == t;
    ret := off;
  }

  /** Sizing pass, allocation, filling pass.  `truncated` tells whether the check after the second pass found
      something. */
  method XbcMakeCmdline(root: Option<Tree>, allocOk: bool) returns (line: array?<char>, ghost truncated: bool)
    requires root.Some? ==> WellFormed(root.value)
    ensures !truncated
    ensures line != null <==> root.Some? && AllNamed(root.value) && |Render(root.value)| > 0 && allocOk
    ensures line != null ==> line.Length == |Render(root.value)| + 1 && line[..] == Render(root.value) + [NUL]
  {
    truncated := false;
    if root.None? {
      return null, false;
    }
    var none := new char[0];
    ghost var bad;
    var len;
    len, bad := XbcSnprintCmdline(none, 0, root.value);
    if len <= 0 || !allocOk {
      return null, false;
    }
    var cmdline := new char[len + 1];
    var ret;
    ret, bad := XbcSnprintCmdline(cmdline, len + 1, root.value);
    if ret < 0 || ret > len {
      truncated := true;
      return null, truncated;
    }
    line := cmdline;
  }

  // ----- setup_command_line

  /** The buffer starts with `text` and a NUL. */
  ghost predicate Line(b: seq<char>, text: string) {
    |text| < |b| && b[|text|] == NUL && forall i :: 0 <= i < |text| ==> b[i] == text[i]
  }

  /** strcpy onto position `p` of a line: what stood behind it is cut off. */
  method CopyAt(buf: array<char>, ghost text: string, p: nat, src: string)
    requires p <= |text| && p + |src| < buf.Length && forall i :: 0 <= i < p ==> buf[i] == text[i]
    modifies buf
    ensures Line(buf[..], text[..p] + src)
  {
    StrCpy(buf, p, src);
    ghost var now := text[..p] + src;
    forall i | 0 <= i < |now|
      ensures buf[i] == now[i]
    {
      if i >= p {
        assert buf[p + (i - p)] == src[i - p];
      }
    }
  }

  function TextOf(o: Option<string>): string {
    if o.Some? then o.value else ""
  }

  /** Extra options first, then the boot line; init arguments from the configuration go in at `offs`, right behind the
      "--" of the boot line, or behind a "--" of their own. */
  function SavedLine(extra: Option<string>, init: Option<string>, boot: string, offs: nat): string
    requires offs <= |boot|
  {
    TextOf(extra) +
    if init.None? then boot
    else if offs > 0 then boot[..offs] + init.value + boot[offs - 1..]
    else boot + " -- " + init.value
  }

  /** Both allocations are sized by the boot line.  Every copy stays inside them exactly if the line to be parsed is no
      longer than that; otherwise `overrun` marks the copy that would write past the second one. */
  method SetupCommandLine(extra: Option<string>, init: Option<string>, boot: string, offs: nat, commandLine: string)
    returns (saved: array<char>, static_: array<char>, savedLen: nat, overrun: bool)
    requires NoNul(TextOf(extra)) && NoNul(TextOf(init)) && NoNul(boot) && offs <= |boot|
    ensures fresh(saved) && fresh(static_)
    ensures overrun <==> |commandLine| > |boot|
    ensures !overrun ==>
              && Line(saved[..], SavedLine(extra, init, boot, offs)) && savedLen == |SavedLine(extra, init, boot, offs)|
              && Line(static_[..], TextOf(extra) + commandLine)
    // The saved line in its three forms.
    ensures !overrun ==>
              var head := if extra.Some? then extra.value else "";
              && (init.None? ==> Line(saved[..], head + boot) && savedLen == |head| + |boot|)
              && (init.Some? && offs == 0 ==> Line(saved[..], head + (boot + " -- " + init.value)))
              && (init.Some? && offs > 0 ==> Line(saved[..], head + (boot[..offs] + init.value + boot[offs - 1..])))
  {
    var xlen, ilen := |TextOf(extra)|, if init.Some? then |init.value| + 4 else 0;
    var len := xlen + |boot| + 1;
    saved := new char[len + ilen];
    static_ := new char[len];
    CopyHead(saved, extra, boot);
    savedLen, overrun := 0, xlen + |commandLine| >= static_.Length;
    if overrun {
      return;
    }
    CopyHead(static_, extra, commandLine);
    if ilen > 0 {
      SpliceInit(saved, TextOf(extra), xlen, init.value, boot, offs);
    }
    FinalLine(saved[..], extra, init, boot, offs);
    savedLen := StrLen(saved, 0);
  }

  /** The extra options, if there are any, and the rest behind them. */
  method CopyHead(buf: array<char>, extra: Option<string>, rest: string)
    requires |TextOf(extra)| + |rest| < buf.Length
    modifies buf
    ensures Line(buf[..], TextOf(extra) + rest)
  {
    ghost var head := TextOf(extra);
    var xlen := |TextOf(extra)|;
    if xlen > 0 {
      CopyAt(buf, "", 0, extra.value);
      assert ""[..0] + head == head;
    }
    CopyAt(buf, head, xlen, rest);
    assert head[..xlen] == head;
  }

  lemma FinalLine(b: seq<char>, extra: Option<string>, init: Option<string>, boot: string, offs: nat)
    requires NoNul(TextOf(extra)) && NoNul(TextOf(init)) && NoNul(boot) && offs <= |boot|
    requires Line(b, SavedLine(extra, init, boot, offs))
    ensures CStr(b, 0) == SavedLine(extra, init, boot, offs) && Terminated(b, 0)
  {
    CStrIs(b, 0, SavedLine(extra, init, boot, offs));
  }

  /** The text after `init` and the tail of the boot line have been copied behind its first `offs` characters. */
  lemma SplicedText(head: string, init: string, boot: string, offs: nat)
    requires 0 < offs <= |boot|
    ensures var cut := (head + boot)[..|head| + offs] + init;
            cut[..|head| + offs + |init|] + boot[offs - 1..] == head + (boot[..offs] + init + boot[offs - 1..])
  {
    assert (head + boot)[..|head| + offs] == head + boot[..offs];
    var cut := head + boot[..offs] + init;
    assert cut[..|head| + offs + |init|] == cut;
  }

  lemma AppendedText(text: string, init: string)
    ensures var dashed := text[..|text|] + " -- "; dashed[..|text| + 4] + init == text + " -- " + init
  {
    assert text[..|text|] == text;
    var dashed := text + " -- ";
    assert dashed[..|text| + 4] == dashed;
  }

  /** Both ways of adding the init arguments. */
  method SpliceInit(saved: array<char>, ghost head: string, xlen: nat, init: string, boot: string, offs: nat)
    requires Line(saved[..], head + boot) && NoNul(head) && NoNul(boot) && offs <= |boot| && xlen == |head|
    requires saved.Length == |head| + |boot| + 1 + |init| + 4
    modifies saved
    ensures Line(saved[..], head + if offs > 0 then boot[..offs] + init + boot[offs - 1..] else boot + " -- " + init)
  {
    ghost var text := head + boot;
    if offs > 0 {
      var len := xlen + offs;
      CopyAt(saved, text, len, init);
      text := text[..len] + init;
      len := len + |init|;
      CopyAt(saved, text, len, boot[offs - 1..]);
      SplicedText(head, init, boot, offs);
    } else {
      CStrIs(saved[..], 0, text);
      var len := StrLen(saved, 0);
      CopyAt(saved, text, len, " -- ");
      CopyAt(saved, text[..len] + " -- ", len + 4, init);
      AppendedText(text, init);
      assert text + " -- " + init == head + (boot + " -- " + init);
    }
  }
}
