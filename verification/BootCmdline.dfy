/**
 The boot command line of init/main.c: bootconfig keys printed in two passes (measure, then print), and
 the saved command line assembled from its parts in a buffer sized beforehand.
 */
module BootCmdline {
  import opened CString
  import opened MachineInt
  import opened Options

  /** One key under the root: its composed name and values, or the error of xbc_node_compose_key_after. */
  datatype Key = Key(name: string, values: seq<string>) | BadKey(err: int)

  // ---------------------------------------------------------------------------------------------
  // What is to be printed

  function ValueText(name: string, value: string): string {
    name + "=\"" + value + "\" "
  }

  function ValuesText(name: string, values: seq<string>): string {
    if values == [] then "" else ValuesText(name, values[..|values| - 1]) + ValueText(name, values[|values| - 1])
  }

  function KeyText(k: Key): string
    requires k.Key?
  {
    if k.values == [] then k.name + " " else ValuesText(k.name, k.values)
  }

  ghost predicate AllGood(keys: seq<Key>) {
    forall i :: 0 <= i < |keys| ==> keys[i].Key?
  }

  /** `err` is the error of the first key that has one. */
  ghost predicate FirstError(keys: seq<Key>, err: int) {
    err < 0 && exists i :: 0 <= i < |keys| && keys[i] == BadKey(err) && forall j :: 0 <= j < i ==> keys[j].Key?
  }

  function Text(keys: seq<Key>): string
    requires AllGood(keys)
  {
    if keys == [] then "" else Text(keys[..|keys| - 1]) + KeyText(keys[|keys| - 1])
  }

  // ---------------------------------------------------------------------------------------------
  // Reading it back

  /** An argument on a command line, with its value if it has one. */
  datatype Item = Item(name: string, value: Option<string>)

  function ItemsOf(k: Key): seq<Item>
    requires k.Key?
  {
    if k.values == [] then [Item(k.name, None)] else seq(|k.values|, i requires 0 <= i < |k.values| => Item(k.name, Some(k.values[i])))
  }

  function Items(keys: seq<Key>): seq<Item>
    requires AllGood(keys)
  {
    if keys == [] then [] else Items(keys[..|keys| - 1]) + ItemsOf(keys[|keys| - 1])
  }

  /** The first position from `i` on with one of the two characters. */
  function Until(s: string, a: char, b: char, i: nat): (n: nat)
    requires i <= |s|
    ensures i <= n <= |s| && (n < |s| ==> s[n] == a || s[n] == b)
    ensures forall k :: i <= k < n ==> s[k] != a && s[k] != b
    decreases |s| - i
  {
    if i == |s| || s[i] == a || s[i] == b then i else Until(s, a, b, i + 1)
  }

  /** Arguments separated by single spaces, values in double quotes; reading stops at anything else. */
  function Parse(s: string): seq<Item>
    decreases |s|
  {
    var n := Until(s, ' ', '=', 0);
    if n == |s| then []
    else if s[n] == ' ' then [Item(s[..n], None)] + Parse(s[n + 1..])
    else if n + 1 == |s| || s[n + 1] != '"' then []
    else
      var q := Until(s, '"', '"', n + 2);
      if q + 1 >= |s| || s[q + 1] != ' ' then [] else [Item(s[..n], Some(s[n + 2..q]))] + Parse(s[q + 2..])
  }

  /** A name can be told from what follows it, and a value from its closing quote. */
  ghost predicate Clean(it: Item) {
    ' ' !in it.name && '=' !in it.name && (it.value.Some? ==> '"' !in it.value.value)
  }

  function ItemText(it: Item): string {
    it.name + if it.value.None? then " " else "=\"" + it.value.value + "\" "
  }

  lemma UntilIs(s: string, a: char, b: char, i: nat, n: nat)
    requires i <= n < |s| && (s[n] == a || s[n] == b) && forall k :: i <= k < n ==> s[k] != a && s[k] != b
    ensures Until(s, a, b, i) == n
  {
  }

  lemma ParseItem(it: Item, rest: string)
    requires Clean(it)
    ensures Parse(ItemText(it) + rest) == [it] + Parse(rest)
  {
    var s, n := ItemText(it) + rest, |it.name|;
    assert s[..n] == it.name;
    UntilIs(s, ' ', '=', 0, n);
    if it.value.None? {
      assert s[n + 1..] == rest;
    } else {
      var v := it.value.value;
      var q := n + 2 + |v|;
      assert s == it.name + "=\"" + v + "\" " + rest;
      assert s[n + 2..q] == v;
      forall k | n + 2 <= k < q
        ensures s[k] != '"'
      {
        assert s[k] == v[k - (n + 2)];
      }
      UntilIs(s, '"', '"', n + 2, q);
      assert s[q + 2..] == rest;
    }
  }

  function ItemsText(items: seq<Item>): string {
    if items == [] then "" else ItemText(items[0]) + ItemsText(items[1..])
  }

  lemma {:induction false} ParseItems(items: seq<Item>)
    requires forall i :: 0 <= i < |items| ==> Clean(items[i])
    ensures Parse(ItemsText(items)) == items
  {
    if items != [] {
      ParseItems(items[1..]);
      ParseItem(items[0], ItemsText(items[1..]));
    }
  }

  lemma Associates(a: string, b: string, c: string)
    ensures (a + b) + c == a + (b + c)
  {
  }

  lemma {:induction false} ItemsTextJoins(xs: seq<Item>, ys: seq<Item>)
    ensures ItemsText(xs + ys) == ItemsText(xs) + ItemsText(ys)
  {
    if xs == [] {
      assert xs + ys == ys;
    } else {
      ItemsTextJoins(xs[1..], ys);
      assert (xs + ys)[0] == xs[0] && (xs + ys)[1..] == xs[1..] + ys;
      Associates(ItemText(xs[0]), ItemsText(xs[1..]), ItemsText(ys));
    }
  }

  lemma {:induction false} ValuesAreItems(name: string, values: seq<string>)
    ensures ValuesText(name, values) == ItemsText(seq(|values|, i requires 0 <= i < |values| => Item(name, Some(values[i]))))
  {
    if values != [] {
      var n := |values| - 1;
      var xs := seq(n, i requires 0 <= i < n => Item(name, Some(values[..n][i])));
      var last := Item(name, Some(values[n]));
      ValuesAreItems(name, values[..n]);
      ItemsTextJoins(xs, [last]);
      assert ItemsText([last]) == ItemText(last) + "" == ValueText(name, values[n]);
      assert seq(|values|, i requires 0 <= i < |values| => Item(name, Some(values[i]))) == xs + [last];
    }
  }

  lemma {:induction false} TextIsItems(keys: seq<Key>)
    requires AllGood(keys)
    ensures Text(keys) == ItemsText(Items(keys))
  {
    if keys != [] {
      var k := keys[|keys| - 1];
      TextIsItems(keys[..|keys| - 1]);
      ItemsTextJoins(Items(keys[..|keys| - 1]), ItemsOf(k));
      if k.values == [] {
        assert ItemsText([Item(k.name, None)]) == k.name + " " + "";
      } else {
        ValuesAreItems(k.name, k.values);
      }
    }
  }

  /** What the two passes print reads back as the keys and values of the bootconfig, in order. */
  lemma PrintedReadsBack(keys: seq<Key>)
    requires AllGood(keys) && forall i :: 0 <= i < |Items(keys)| ==> Clean(Items(keys)[i])
    ensures Parse(Text(keys)) == Items(keys)
  {
    TextIsItems(keys);
    ParseItems(Items(keys));
  }

  /** `buf` holds as much of `text` as fits in `size` bytes, with its NUL. */
  ghost predicate Holds(buf: seq<char>, size: nat, text: string) {
    && size <= |buf|
    && (size > 0 && text != "" ==> var k := Min(|text|, size - 1); buf[..k] == text[..k] && buf[k] == '\0')
  }

  // ---------------------------------------------------------------------------------------------
  // Printing

  /** snprintf(buf + at, size - at or 0, "%s", s): what fits and a NUL; the answer is the full length. */
  method Snprintf(buf: array<char>, at: nat, size: nat, s: string) returns (ret: nat)
    requires size <= buf.Length
    modifies buf
    ensures ret == |s|
    ensures size <= at ==> buf[..] == old(buf[..])
    ensures at < size ==> var k := Min(|s|, size - at - 1);
                          buf[..at] == old(buf[..at]) && buf[at..at + k] == s[..k] && buf[at + k] == '\0'
  {
    ret := |s|;
    if at < size {
      var k := Min(|s|, size - at - 1);
      StrCpy(buf, at, s[..k]);
    }
  }

  /** Printing after `text` what comes next keeps the buffer the beginning of the whole. */
  method Append(buf: array<char>, size: nat, ghost text: string, at: nat, s: string) returns (at': nat)
    requires Holds(buf[..], size, text) && at == |text| && s != ""
    modifies buf
    ensures at' == |text + s| && Holds(buf[..], size, text + s)
  {
    var ret := Snprintf(buf, at, size, s);
    at' := at + ret;
    if at < size {
      var k := Min(|s|, size - at - 1);
      assert Min(|text + s|, size - 1) == at + k;
      assert buf[..at + k] == buf[..at] + buf[at..at + k];
      assert (text + s)[..at + k] == text + s[..k];
      assert text != "" ==> buf[..at] == text[..at];
      assert text[..at] == text;
    } else if size > 0 {
      assert (text + s)[..size - 1] == text[..size - 1];
    }
  }

  /** The inner loop: name="value" for every value of an array. */
  method PrintValues(buf: array<char>, size: nat, ghost done: string, at: nat, name: string, values: seq<string>) returns (at': nat)
    requires Holds(buf[..], size, done) && at == |done|
    modifies buf
    ensures at' == |done + ValuesText(name, values)| && Holds(buf[..], size, done + ValuesText(name, values))
  {
    at' := at;
    var v := 0;
    ghost var text := done;
    assert values[..0] == [] && done + ValuesText(name, []) == done;
    while v < |values|
      invariant 0 <= v <= |values|
      invariant text == done + ValuesText(name, values[..v])
      invariant at' == |text| && Holds(buf[..], size, text)
    {
      assert values[..v + 1][..v] == values[..v];
      at' := Append(buf, size, text, at', ValueText(name, values[v]));
      text := text + ValueText(name, values[v]);
      v := v + 1;
    }
    assert values[..v] == values;
  }

  /** The body of the outer loop: a key alone, or all its values. */
  method PrintKey(buf: array<char>, size: nat, ghost done: string, at: nat, k: Key) returns (at': nat)
    requires Holds(buf[..], size, done) && at == |done| && k.Key?
    modifies buf
    ensures at' == |done + KeyText(k)| && Holds(buf[..], size, done + KeyText(k))
  {
    if k.values == [] {
      at' := Append(buf, size, done, at, k.name + " ");
    } else {
      at' := PrintValues(buf, size, done, at, k.name, k.values);
    }
  }

  lemma TextStep(keys: seq<Key>, n: nat)
    requires n < |keys| && AllGood(keys[..n]) && keys[n].Key?
    ensures AllGood(keys[..n + 1]) && Text(keys[..n + 1]) == Text(keys[..n]) + KeyText(keys[n])
  {
    assert keys[..n + 1][..n] == keys[..n];
  }

  lemma FirstErrorAt(keys: seq<Key>, n: nat)
    requires n < |keys| && AllGood(keys[..n]) && keys[n].BadKey? && keys[n].err < 0
    ensures !AllGood(keys) && FirstError(keys, keys[n].err)
  {
    assert keys[n] == BadKey(keys[n].err) && forall j :: 0 <= j < n ==> keys[j] == keys[..n][j];
  }

  /** The answer does not depend on the size: the full length, or the error of the first key that has none. */
  method XbcSnprintCmdline(buf: array<char>, size: nat, keys: seq<Key>) returns (ret: int)
    requires size <= buf.Length
    requires forall i :: 0 <= i < |keys| && keys[i].BadKey? ==> keys[i].err < 0
    modifies buf
    ensures AllGood(keys) ==> ret == |Text(keys)| && Holds(buf[..], size, Text(keys))
    ensures !AllGood(keys) ==> FirstError(keys, ret)
  {
    var at: nat := 0;
    var n := 0;
    ghost var text := "";
    assert keys[..0] == [];
    while n < |keys|
      invariant 0 <= n <= |keys| && AllGood(keys[..n])
      invariant text == Text(keys[..n]) && at == |text| && Holds(buf[..], size, text)
    {
      if keys[n].BadKey? {
        FirstErrorAt(keys, n);
        return keys[n].err;
      }
      TextStep(keys, n);
      at := PrintKey(buf, size, text, at, keys[n]);
      text := text + KeyText(keys[n]);
      n := n + 1;
    }
    assert keys[..n] == keys;
    ret := at;
  }

  /** Measure with size 0, allocate, print: the second pass never truncates and never answers more than the first. */
  method XbcMakeCmdline(root: Option<seq<Key>>, haveMemory: bool) returns (r: Option<array<char>>)
    requires root.Some? ==> forall i :: 0 <= i < |root.value| && root.value[i].BadKey? ==> root.value[i].err < 0
    ensures r.Some? <==> root.Some? && AllGood(root.value) && Text(root.value) != "" && haveMemory
    ensures r.Some? ==> fresh(r.value) && r.value[..] == Text(root.value) + ['\0']
  {
    if root.None? {
      return None;
    }
    var keys := root.value;
    var none := new char[0];
    var len := XbcSnprintCmdline(none, 0, keys);
    if len <= 0 {
      return None;
    }
    if !haveMemory {
      return None;
    }
    var cmdline, ret := PrintInto(keys, len);
    if ret < 0 || ret > len {
      return None;
    }
    return Some(cmdline);
  }

  /** The second pass, into a buffer of the length that the first one found. */
  method PrintInto(keys: seq<Key>, len: nat) returns (cmdline: array<char>, ret: int)
    requires AllGood(keys) && len == |Text(keys)| && len > 0
    ensures fresh(cmdline) && ret == len && cmdline[..] == Text(keys) + ['\0']
  {
    cmdline := new char[len + 1](_ => '\0');
    ret := XbcSnprintCmdline(cmdline, len + 1, keys);
    assert Text(keys)[..len] == Text(keys);
    assert cmdline[..] == cmdline[..len] + [cmdline[len]];
  }

  // ---------------------------------------------------------------------------------------------
  // The saved command line

  ghost predicate HasText(buf: array<char>, s: string)
    reads buf
  {
    |s| < buf.Length && buf[..|s|] == s && buf[|s|] == '\0'
  }

  /** strcpy at the end of a text, or inside it, replaces what follows. */
  method CopyAt(dst: array<char>, ghost before: string, at: nat, s: string)
    requires at <= |before| && at + |s| < dst.Length && |before| <= dst.Length && dst[..|before|] == before
    modifies dst
    ensures HasText(dst, before[..at] + s)
  {
    StrCpy(dst, at, s);
    assert dst[..at] == before[..at];
    assert dst[..at + |s|] == dst[..at] + dst[at..at + |s|];
  }

  function OrEmpty(o: Option<string>): string {
    if o.Some? then o.value else ""
  }

  /** What the saved command line is meant to say. `offs` is where the part after "--" starts, 0 if there is none. */
  function SavedText(boot: string, extra: Option<string>, init: Option<string>, offs: nat): string
    requires offs <= |boot|
  {
    if init.None? then OrEmpty(extra) + boot
    else if offs > 0 then OrEmpty(extra) + boot[..offs] + init.value + boot[offs - 1..]
    else OrEmpty(extra) + boot + " -- " + init.value
  }

  /** Nothing of the boot command line is lost: the extra arguments for init stand between its two parts, or at its end. */
  lemma SavedInOrder(before: string, after: string, extra: Option<string>, init: string)
    requires before != "" && before[|before| - 1] == ' '
    ensures SavedText(before + after, extra, Some(init), |before|) == OrEmpty(extra) + before + init + " " + after
    ensures SavedText(before + after, extra, Some(init), 0) == OrEmpty(extra) + before + after + " -- " + init
    ensures SavedText(before + after, extra, None, |before|) == OrEmpty(extra) + before + after
  {
    var boot := before + after;
    assert boot[..|before|] == before;
    assert boot[|before| - 1..] == " " + after;
    var x := OrEmpty(extra);
    assert x + before + init + (" " + after) == x + before + init + " " + after;
    assert x + boot == x + before + after;
  }

  /** The extra arguments for init go before those on the command line, or after a new "--". */
  method AddInitArgs(saved: array<char>, ghost x: string, xlen: nat, boot: string, init: string, offs: nat) returns (savedLen: nat)
    requires xlen == |x| && offs <= |boot| && saved.Length == xlen + |boot| + 1 + |init| + 4 && HasText(saved, x + boot)
    modifies saved
    ensures HasText(saved, SavedText(boot, Some(x), Some(init), offs))
    ensures savedLen == |SavedText(boot, Some(x), Some(init), offs)|
  {
    if offs != 0 {
      var len := xlen + offs;
      assert (x + boot)[..len] == x + boot[..offs];
      CopyAt(saved, x + boot, len, init);
      len := len + |init|;
      ghost var front := x + boot[..offs] + init;
      assert front[..len] == front;
      CopyAt(saved, front, len, boot[offs - 1..]);
      savedLen := len + |boot| - offs + 1;
    } else {
      var len := xlen + |boot|;
      ghost var front := x + boot;
      assert front[..len] == front;
      CopyAt(saved, front, len, " -- ");
      len := len + 4;
      front := front + " -- ";
      assert front[..len] == front;
      CopyAt(saved, front, len, init);
      savedLen := len + |init|;
    }
  }

  /** strcpy after `x` into a buffer that may be too small: what fits is stored, `overrun` bytes go past the end. */
  method CopyOver(dst: array<char>, ghost x: string, at: nat, s: string) returns (overrun: nat)
    requires at == |x| < dst.Length && dst[..at] == x
    modifies dst
    ensures overrun == if at + |s| < dst.Length then 0 else at + |s| + 1 - dst.Length
    ensures overrun == 0 ==> HasText(dst, x + s)
    ensures overrun > 0 ==> dst[..] == x + s[..dst.Length - at]
  {
    assert x[..at] == x;
    if at + |s| < dst.Length {
      CopyAt(dst, x, at, s);
      return 0;
    }
    var i := at;
    while i < dst.Length
      invariant at <= i <= dst.Length && dst[..i] == x + s[..i - at]
    {
      dst[i] := s[i - at];
      i := i + 1;
    }
    return at + |s| + 1 - dst.Length;
  }

  /**
   Both command lines in buffers that are sized beforehand. The saved one always fits; the one to be parsed fits exactly
   when it is no longer than the boot command line, whose length its buffer was sized by.
   */
  method SetupCommandLine(boot: string, commandLine: string, extra: Option<string>, init: Option<string>, offs: nat)
    returns (saved: array<char>, parsed: array<char>, savedLen: nat, overrun: nat)
    requires offs <= |boot|
    ensures HasText(saved, SavedText(boot, extra, init, offs))
    ensures overrun == if |commandLine| <= |boot| then 0 else |commandLine| - |boot|
    ensures overrun == 0 ==> HasText(parsed, OrEmpty(extra) + commandLine)
    ensures savedLen == |SavedText(boot, extra, init, offs)|
    ensures init.Some? ==> saved.Length == savedLen + 1 + if offs > 0 then 3 else 0
    ensures init.None? ==> saved.Length == savedLen + 1
  {
    var xlen, ilen := 0, 0;
    if extra.Some? {
      xlen := |extra.value|;
    }
    if init.Some? {
      ilen := |init.value| + 4;
    }
    var len := xlen + |boot| + 1;
    saved := new char[len + ilen];
    parsed := new char[len];
    ghost var x := OrEmpty(extra);
    if xlen != 0 {
      StrCpy(saved, 0, extra.value);
      StrCpy(parsed, 0, extra.value);
      assert saved[..xlen] == saved[0..xlen] && parsed[..xlen] == parsed[0..xlen];
    }
    assert x[..xlen] == x;
    CopyAt(saved, x, xlen, boot);
    overrun := CopyOver(parsed, x, xlen, commandLine);
    savedLen := xlen + |boot|;  // strlen(saved_command_line), here and below
    if ilen != 0 {
      savedLen := AddInitArgs(saved, x, xlen, boot, init.value, offs);
    }
  }
}
