/** VALUE clauses as emitted C: string literals, and the fills that put a literal into an item. */
module ValueCode {
  import opened Optional
  import opened Modulus
  import opened Sequences

  /** A byte of storage. */
  type Octet = b: nat | b < 256

  // --- String literals (ISO/IEC 9899:1999, 6.4.4.4 and 6.4.5, trigraphs aside) -----------------------

  predicate IsPrint(c: Octet) { 32 <= c <= 126 }

  predicate AllPrint(s: seq<Octet>) { forall k :: 0 <= k < |s| ==> IsPrint(s[k]) }

  function Digit(d: nat): char
    requires d < 8
  {
    ('0' as nat + d) as char
  }

  function Octal(c: Octet): string {
    ['\\', Digit(c / 64), Digit(c / 8 % 8), Digit(c % 8)]
  }

  function Escaped(c: Octet, printable: bool): string {
    if !printable then Octal(c)
    else if c as char == '\"' || c as char == '\\' then ['\\', c as char]
    else [c as char]
  }

  function Body(s: seq<Octet>, printable: bool): string {
    if s == [] then "" else Escaped(s[0], printable) + Body(s[1..], printable)
  }

  /** output_string. */
  method OutputString(s: seq<Octet>) returns (text: string)
    ensures Decode(text) == Some(s)
  {
    hide Escaped, DecodeBody;
    var printable := CheckPrintable(s);
    text := "\"";
    for i := 0 to |s|
      invariant text + Body(s[i..], printable) == "\"" + Body(s, printable)
    {
      BodyStarts(s, i, printable);
      var one := OutputChar(s[i], printable);
      AppendLeft(text, one, Body(s[i + 1..], printable));
      text := text + one;
    }
    assert s[|s|..] == [];
    assert text == "\"" + Body(s, printable);
    text := text + "\"";
    Decodes(s, printable);
    assert text[0] == '\"' && text[1..] == Body(s, printable) + "\"";
  }

  method CheckPrintable(s: seq<Octet>) returns (printable: bool)
    ensures printable == AllPrint(s)
  {
    printable := true;
    for i := 0 to |s|
      invariant printable <==> forall k :: 0 <= k < i ==> IsPrint(s[k])
    {
      if !IsPrint(s[i]) {
        printable := false;
      }
    }
  }

  method OutputChar(c: Octet, printable: bool) returns (text: string)
    ensures text == Escaped(c, printable)
  {
    if printable {
      if c as char == '\"' || c as char == '\\' {
        text := "\\" + [c as char];
      } else {
        text := [c as char];
      }
    } else {
      text := Octal(c);
    }
  }

  lemma {:induction false} BodyStarts(s: seq<Octet>, i: nat, printable: bool)
    requires i < |s|
    ensures Body(s[i..], printable) == Escaped(s[i], printable) + Body(s[i + 1..], printable)
  {
    assert s[i..][0] == s[i] && s[i..][1..] == s[i + 1..];
  }

  lemma {:induction false} AppendLeft(a: string, b: string, c: string)
    ensures a + (b + c) == (a + b) + c
  {
  }

  predicate IsOctal(c: char) { '0' <= c <= '7' }

  /** How many octal digits an escape takes: as many as there are, up to three. */
  function OctalDigits(t: string, i: nat): (n: nat)
    requires i <= |t|
    ensures n <= 3 && i + n <= |t| && forall k :: i <= k < i + n ==> IsOctal(t[k])
  {
    if i < |t| && IsOctal(t[i]) then
      if i + 1 < |t| && IsOctal(t[i + 1]) then
        if i + 2 < |t| && IsOctal(t[i + 2]) then 3 else 2
      else 1
    else 0
  }

  function OctalValue(t: string): nat
    requires forall k :: 0 <= k < |t| ==> IsOctal(t[k])
  {
    if t == "" then 0
    else
      assert IsOctal(t[|t| - 1]);
      8 * OctalValue(t[..|t| - 1]) + (t[|t| - 1] as int - '0' as int)
  }

  /** The bytes a string literal stands for, without the zero byte at its end; None for what is not a
      literal, and for the escapes the compiler does not emit. */
  function Decode(text: string): Option<seq<Octet>> {
    if text != "" && text[0] == '\"' then DecodeBody(text[1..]) else None
  }

  function DecodeBody(t: string): Option<seq<Octet>>
    decreases |t|
  {
    if t == "" then None
    else if t[0] == '\"' then if |t| == 1 then Some([]) else None
    else if t[0] != '\\' then
      if t[0] as nat >= 256 || t[0] == '\n' then None else Before(t[0] as nat, DecodeBody(t[1..]))
    else
      var n := OctalDigits(t, 1);
      if n > 0 then
        var v := OctalValue(t[1..1 + n]);
        if v >= 256 then None else Before(v, DecodeBody(t[1 + n..]))
      else if |t| > 1 && (t[1] == '\"' || t[1] == '\\') then Before(t[1] as nat, DecodeBody(t[2..]))
      else None
  }

  function Before(c: Octet, rest: Option<seq<Octet>>): Option<seq<Octet>> {
    if rest.None? then None else Some([c] + rest.value)
  }

  lemma {:induction false} OctalOf(c: Octet)
    ensures OctalValue(Octal(c)[1..]) == c
  {
    var a, b, d := Digit(c / 64), Digit(c / 8 % 8), Digit(c % 8);
    assert Octal(c)[1..] == [a, b, d];
    assert [a, b, d][..2] == [a, b] && [a, b][..1] == [a] && [a][..0] == [];
    assert OctalValue([a]) == c / 64;
    assert OctalValue([a, b]) == 8 * (c / 64) + c / 8 % 8;
    assert c / 8 / 8 == c / 64;
    assert OctalValue([a, b, d]) == 8 * (8 * (c / 64) + c / 8 % 8) + c % 8;
  }

  lemma {:induction false} DecodesOctal(c: Octet, rest: string)
    ensures DecodeBody(Octal(c) + rest) == Before(c, DecodeBody(rest))
  {
    var t := Octal(c) + rest;
    OctalOf(c);
    assert t[1..4] == Octal(c)[1..] && t[4..] == rest;
    assert t[1] == Octal(c)[1] && t[2] == Octal(c)[2] && t[3] == Octal(c)[3];
    assert OctalDigits(t, 1) == 3;
  }

  lemma {:induction false} DecodesOne(c: Octet, printable: bool, rest: string)
    requires printable ==> IsPrint(c)
    ensures DecodeBody(Escaped(c, printable) + rest) == Before(c, DecodeBody(rest))
  {
    var t := Escaped(c, printable) + rest;
    if !printable {
      DecodesOctal(c, rest);
    } else if c as char == '\"' || c as char == '\\' {
      assert t[0] == '\\' && t[1] == c as char && t[2..] == rest;
      assert OctalDigits(t, 1) == 0;
    } else {
      assert t[0] == c as char && t[1..] == rest;
    }
  }

  /** The literal stands for the bytes it was written from. */
  lemma {:induction false} Decodes(s: seq<Octet>, printable: bool)
    requires printable ==> AllPrint(s)
    ensures DecodeBody(Body(s, printable) + "\"") == Some(s)
    decreases |s|
  {
    hide Escaped, DecodeBody;
    if s == [] {
      DecodesNothing();
    } else {
      var rest := Body(s[1..], printable) + "\"";
      Decodes(s[1..], printable);
      DecodesOne(s[0], printable, rest);
      AppendLeft(Escaped(s[0], printable), Body(s[1..], printable), "\"");
      assert s == [s[0]] + s[1..];
    }
  }

  lemma {:induction false} DecodesNothing()
    ensures DecodeBody("" + "\"") == Some([])
  {
    assert "" + "\"" == "\"";
  }

  // --- Filling an item -------------------------------------------------------------------------------

  /** The statements emitted for a VALUE, on an item at some place in storage. */
  datatype Stmt =
    | StoreByte(c: int)                                       // *(unsigned char *)(x) = c;
    | Memset(offset: nat, c: int, n: nat)                     // memset (x + offset, c, n);
    | Memcpy(offset: nat, text: string, n: nat)               // memcpy (x + offset, "...", n);
    | CopyLoop(times: nat, stride: nat, text: string, n: nat) // for (i0 = 0; i0 < times; i0++) memcpy (x + (i0 * stride), "...", n);
    | CopyAt(stride: nat, text: string, n: nat)               // memcpy (x + (i0 * stride), "...", n);

  /** Storage, and the counter i0. */
  datatype State = State(memory: seq<Octet>, i0: nat)

  /** Conversion to unsigned char. */
  function ToOctet(c: int): Octet { c % 256 }

  function Write(memory: seq<Octet>, at: nat, bytes: seq<Octet>): Option<seq<Octet>> {
    if at + |bytes| <= |memory| then Some(memory[..at] + bytes + memory[at + |bytes|..]) else None
  }

  /** The first n bytes of a literal, its zero byte included; None beyond it. */
  function Source(text: string, n: nat): Option<seq<Octet>> {
    var s := Decode(text);
    if s.None? || n > |s.value| + 1 then None else Some((s.value + [0])[..n])
  }

  function Copy(memory: seq<Octet>, at: nat, text: string, n: nat): Option<seq<Octet>> {
    var s := Source(text, n);
    if s.None? then None else Write(memory, at, s.value)
  }

  function Copies(memory: seq<Octet>, at: nat, i: nat, times: nat, stride: nat, text: string, n: nat): Option<seq<Octet>>
    requires i <= times
    decreases times - i
  {
    if i == times then Some(memory)
    else
      var next := Copy(memory, at + i * stride, text, n);
      if next.None? then None else Copies(next.value, at, i + 1, times, stride, text, n)
  }

  function Put(memory: Option<seq<Octet>>, i0: nat): Option<State> {
    if memory.None? then None else Some(State(memory.value, i0))
  }

  /** One statement, on the item at `at`; None when it reaches outside storage or the literal. */
  function Exec(s: Stmt, st: State, at: nat): Option<State> {
    match s
    case StoreByte(c) => Put(Write(st.memory, at, [ToOctet(c)]), st.i0)
    case Memset(offset, c, n) => Put(Write(st.memory, at + offset, Repeat(ToOctet(c), n)), st.i0)
    case Memcpy(offset, text, n) => Put(Copy(st.memory, at + offset, text, n), st.i0)
    case CopyLoop(times, stride, text, n) => Put(Copies(st.memory, at, 0, times, stride, text, n), times)
    case CopyAt(stride, text, n) => Put(Copy(st.memory, at + st.i0 * stride, text, n), st.i0)
  }

  function Run(code: seq<Stmt>, st: State, at: nat): Option<State> {
    if code == [] then Some(st)
    else
      var next := Exec(code[0], st, at);
      if next.None? then None else Run(code[1..], next.value, at)
  }

  /** Wherever the item is, the code puts exactly these bytes into it and changes nothing else. */
  ghost predicate Fills(code: seq<Stmt>, value: seq<Octet>) {
    forall st: State, at: nat :: at + |value| <= |st.memory| ==>
      var r := Run(code, st, at);
      r.Some? && r.value.memory == st.memory[..at] + value + st.memory[at + |value|..]
  }

  lemma {:induction false} FillsOne(s: Stmt, value: seq<Octet>)
    requires forall st: State, at: nat :: at + |value| <= |st.memory| ==>
      Exec(s, st, at).Some? && Exec(s, st, at).value.memory == st.memory[..at] + value + st.memory[at + |value|..]
    ensures Fills([s], value)
  {
    assert [s][1..] == [];
  }

  /** A statement that fills the item, with what a literal stands for or with one byte. */
  lemma {:induction false} FillsBySame(c: int, value: seq<Octet>)
    requires value == Repeat(ToOctet(c), |value|)
    ensures Fills([Memset(0, c, |value|)], value)
    ensures |value| == 1 ==> Fills([StoreByte(c)], value)
  {
    FillsOne(Memset(0, c, |value|), value);
    if |value| == 1 {
      assert value == [ToOctet(c)];
      FillsOne(StoreByte(c), value);
    }
  }

  lemma {:induction false} FillsByCopy(text: string, value: seq<Octet>)
    requires Decode(text) == Some(value)
    ensures Fills([Memcpy(0, text, |value|)], value)
  {
    assert (value + [0])[..|value|] == value;
    FillsOne(Memcpy(0, text, |value|), value);
  }

  lemma {:induction false} FillsByBoth(text: string, front: seq<Octet>, c: int, n: nat)
    requires Decode(text) == Some(front)
    ensures Fills([Memcpy(0, text, |front|), Memset(|front|, c, n)], front + Repeat(ToOctet(c), n))
  {
    assert (front + [0])[..|front|] == front;
    var tail := Repeat(ToOctet(c), n);
    var a, b := Memcpy(0, text, |front|), Memset(|front|, c, n);
    assert [a, b][1..] == [b] && [b][1..] == [];
    forall st: State, at: nat | at + |front + tail| <= |st.memory|
      ensures Run([a, b], st, at).Some?
           && Run([a, b], st, at).value.memory == st.memory[..at] + (front + tail) + st.memory[at + |front + tail|..]
    {
      var m := st.memory[..at] + front + st.memory[at + |front|..];
      assert Exec(a, st, at) == Some(State(m, st.i0));
      var w := m[..at + |front|] + tail + m[at + |front| + n..];
      assert Exec(b, State(m, st.i0), at) == Some(State(w, st.i0));
      assert w == st.memory[..at] + (front + tail) + st.memory[at + |front + tail|..];
      assert Run([a, b], st, at) == Run([b], State(m, st.i0), at) == Run([], State(w, st.i0), at);
    }
  }

  // --- VALUE "literal" -------------------------------------------------------------------------------

  /** The literal cut off, or padded with spaces, to the size of the item. */
  function Padded(literal: seq<Octet>, size: nat): (s: seq<Octet>)
    ensures |s| == size
    ensures forall k :: 0 <= k < size ==> s[k] == if k < |literal| then literal[k] else ' ' as nat
  {
    if |literal| >= size then literal[..size] else literal + Repeat(32, size - |literal|)
  }

  /** What a plain char holds. */
  function Signed(b: Octet): int { if b < 128 then b else b - 256 }

  /** The part of output_initialize_one for alphanumeric literals, with the buffer it keeps from call
      to call. */
  class ValueEmitter {
    const smallBuff: nat
    var buff: array?<Octet>
    var lastsize: nat

    ghost predicate Valid()
      reads this
    {
      (buff == null && lastsize == 0) || (buff != null && buff.Length == lastsize)
    }

    constructor (smallBuff: nat)
      ensures Valid() && buff == null && this.smallBuff == smallBuff
    {
      this.smallBuff, buff, lastsize := smallBuff, null, 0;
    }

    /** The buffer made large enough. */
    method Reserve(size: nat) returns (b: array<Octet>)
      requires Valid()
      modifies this
      ensures Valid() && b == buff && b.Length >= size
      ensures b == old(buff) || fresh(b)
    {
      if buff == null {
        if size <= smallBuff {
          buff := new Octet[smallBuff];
          lastsize := smallBuff;
        } else {
          buff := new Octet[size];
          lastsize := size;
        }
      } else if size > lastsize {
        buff := new Octet[size];
        lastsize := size;
      }
      b := buff;
    }

    /** The padded literal in its first bytes. */
    method Fill(b: array<Octet>, literal: seq<Octet>, size: nat)
      requires size <= b.Length
      modifies b
      ensures b[..size] == Padded(literal, size)
    {
      var n := if |literal| >= size then size else |literal|;
      for i := 0 to n
        invariant b[..i] == literal[..i]
      {
        b[i] := literal[i];
        assert b[..i + 1] == b[..i] + [literal[i]];
      }
      for i := n to size
        invariant b[..n] == literal[..n] && forall k :: n <= k < i ==> b[k] == 32
      {
        b[i] := 32;
      }
      assert b[..size] == b[..n] + Repeat(32, size - n);
    }

    method IsUniform(b: array<Octet>, size: nat) returns (uniform: bool)
      requires 1 <= size <= b.Length
      ensures uniform <==> b[..size] == Repeat(b[0], size)
    {
      var i := 0;
      while i < size && b[i] == b[0]
        invariant i <= size && forall k :: 0 <= k < i ==> b[k] == b[0]
      {
        i := i + 1;
      }
      uniform := i == size;
      assert i < size ==> b[..size][i] != Repeat(b[0], size)[i];
    }

    /** How many bytes at the end of the first `size` are the same. */
    method CountSame(b: array<Octet>, size: nat) returns (n: nat)
      requires 1 <= size <= b.Length
      ensures 1 <= n <= size && b[size - n..size] == Repeat(b[size - 1], n)
    {
      n := 0;
      var i := size - 1;
      while i >= 0 && b[i] == b[size - 1]
        invariant n == size - 1 - i && n <= size && -1 <= i && (n == 0 ==> i == size - 1)
        invariant forall k :: i < k < size ==> b[k] == b[size - 1]
        decreases i
      {
        n := n + 1;
        i := i - 1;
      }
    }

    method OutputValue(literal: seq<Octet>, size: nat) returns (code: seq<Stmt>)
      requires Valid() && size >= 1
      modifies this, buff
      ensures Valid() && (buff == old(buff) || fresh(buff))
      ensures Fills(code, Padded(literal, size))
    {
      hide Fills, Decode;
      var b := Reserve(size);
      Fill(b, literal, size);
      ghost var value := Padded(literal, size);
      if size == 1 {
        assert value == Repeat(ToOctet(b[0]), 1);
        FillsBySame(b[0], value);
        return [StoreByte(b[0])];
      }
      var buffchar := Signed(b[0]);
      var uniform := IsUniform(b, size);
      if uniform {
        assert value == Repeat(ToOctet(buffchar), size);
        FillsBySame(buffchar, value);
        return [Memset(0, buffchar, size)];
      }
      code := OutputMixed(b, size);
    }

    /** Bytes that are not all the same: a long enough run of one byte at the end is set, not copied. */
    method OutputMixed(b: array<Octet>, size: nat) returns (code: seq<Stmt>)
      requires 1 <= size <= b.Length
      ensures Fills(code, b[..size])
    {
      hide Fills, Decode;
      if size >= 8 {
        var buffchar := Signed(b[size - 1]);
        var n := CountSame(b, size);
        if n > 2 {
          var text := OutputString(b[..size - n]);
          FillsByBoth(text, b[..size - n], buffchar, n);
          assert b[..size] == b[..size - n] + Repeat(ToOctet(buffchar), n);
          return [Memcpy(0, text, size - n), Memset(size - n, buffchar, n)];
        }
      }
      var text := OutputString(b[..size]);
      FillsByCopy(text, b[..size]);
      code := [Memcpy(0, text, size)];
    }
  }

  // --- VALUE ALL "literal" -----------------------------------------------------------------------------

  /** The literal over and over, cut off at the size of the item. */
  function Repeated(literal: seq<Octet>, size: nat): (s: seq<Octet>)
    requires literal != []
    ensures |s| == size && forall k :: 0 <= k < size ==> s[k] == literal[k % |literal|]
  {
    seq(size, k requires 0 <= k < size => literal[k % |literal|])
  }

  lemma {:induction false} RepeatedPart(literal: seq<Octet>, size: nat, i: nat, n: nat)
    requires literal != [] && n <= |literal| && i * |literal| + n == size
    ensures i * |literal| <= size && Repeated(literal, size) == Repeated(literal, i * |literal|) + literal[..n]
  {
    var done := i * |literal|;
    forall k | done <= k < size ensures Repeated(literal, size)[k] == literal[k - done] {
      ModulusUnique(k, |literal|, i, k - done);
    }
  }

  /** After turns i to times of the loop, what was repeated i times is repeated `times` times. */
  lemma {:induction false} CopiesRepeat(memory: seq<Octet>, at: nat, i: nat, times: nat, literal: seq<Octet>, text: string)
    requires literal != [] && i <= times && Decode(text) == Some(literal)
    requires i * |literal| <= times * |literal| && at + times * |literal| <= |memory|
    requires memory[at..at + i * |literal|] == Repeated(literal, i * |literal|)
    ensures Copies(memory, at, i, times, |literal|, text, |literal|)
         == Some(memory[..at] + Repeated(literal, times * |literal|) + memory[at + times * |literal|..])
    decreases times - i
  {
    hide Decode;
    var len := |literal|;
    if i == times {
      assert memory == memory[..at] + memory[at..at + i * len] + memory[at + i * len..];
    } else {
      var from, to := at + i * len, at + (i + 1) * len;
      assert to == from + len;
      Grows(i, times, len);
      assert (literal + [0])[..len] == literal;
      var next := memory[..from] + literal + memory[to..];
      assert Copy(memory, from, text, len) == Some(next);
      RepeatedPart(literal, (i + 1) * len, i, len);
      assert literal[..len] == literal;
      assert next[at..to] == memory[at..from] + literal;
      CopiesRepeat(next, at, i + 1, times, literal, text);
      assert next[..at] == memory[..at] && next[at + times * len..] == memory[at + times * len..];
    }
  }

  lemma {:induction false} Grows(i: nat, times: nat, len: nat)
    requires i < times
    ensures (i + 1) * len == i * len + len && (i + 1) * len <= times * len
  {
    var d := times - (i + 1);
    assert times * len == (i + 1) * len + d * len;
  }

  /** output_initialize_literal. */
  method OutputAllLiteral(literal: seq<Octet>, size: nat) returns (code: seq<Stmt>)
    requires literal != []
    ensures Fills(code, Repeated(literal, size))
  {
    hide Decode, Fills;
    var len := |literal|;
    if len == 1 {
      assert Repeated(literal, size) == Repeat(ToOctet(literal[0]), size);
      FillsBySame(literal[0], Repeated(literal, size));
      return [Memset(0, literal[0], size)];
    }
    if len >= size {
      var text := OutputString(literal[..size]);
      RepeatedPart(literal, size, 0, size);
      assert Repeated(literal, 0) == [] && [] + literal[..size] == literal[..size];
      FillsByCopy(text, Repeated(literal, size));
      return [Memcpy(0, text, size)];
    }
    var i := size / len;
    var text := OutputString(literal);
    code := [CopyLoop(i, len, text, len)];
    var n := size % len;
    if n != 0 {
      var rest := OutputString(literal[..n]);
      code := code + [CopyAt(len, rest, n)];
      LoopFills(literal, size, i, n, text, rest, code);
    } else {
      LoopFills(literal, size, i, n, text, text, code);
    }
  }

  lemma {:induction false} LoopFills(literal: seq<Octet>, size: nat, i: nat, n: nat, text: string, rest: string, code: seq<Stmt>)
    requires literal != [] && n < |literal| && size == i * |literal| + n && Decode(text) == Some(literal)
    requires if n == 0 then code == [CopyLoop(i, |literal|, text, |literal|)]
             else Decode(rest) == Some(literal[..n]) && code == [CopyLoop(i, |literal|, text, |literal|), CopyAt(|literal|, rest, n)]
    ensures Fills(code, Repeated(literal, size))
  {
    hide Decode, Exec, Run, Repeated;
    var value := Repeated(literal, size);
    forall st: State, at: nat | at + |value| <= |st.memory|
      ensures Run(code, st, at).Some? && Run(code, st, at).value.memory == st.memory[..at] + value + st.memory[at + |value|..]
    {
      var x := LoopPart(literal, size, i, n, text, st, at);
      if n == 0 {
        RunOne(code[0], st, at, x);
      } else {
        var y := TailPart(literal, size, i, n, rest, st, x, at);
        RunTwo(code[0], code[1], st, at, x, y);
      }
    }
  }

  lemma {:induction false} RunOne(a: Stmt, st: State, at: nat, x: State)
    requires Exec(a, st, at) == Some(x)
    ensures Run([a], st, at) == Some(x)
  {
    assert [a][1..] == [];
  }

  lemma {:induction false} RunTwo(a: Stmt, b: Stmt, st: State, at: nat, x: State, y: State)
    requires Exec(a, st, at) == Some(x) && Exec(b, x, at) == Some(y)
    ensures Run([a, b], st, at) == Some(y)
  {
    RunOne(b, x, at, y);
    assert [a, b][1..] == [b];
  }

  lemma {:induction false} LoopPart(literal: seq<Octet>, size: nat, i: nat, n: nat, text: string, st: State, at: nat) returns (x: State)
    requires literal != [] && size == i * |literal| + n && Decode(text) == Some(literal) && at + size <= |st.memory|
    ensures Exec(CopyLoop(i, |literal|, text, |literal|), st, at) == Some(x)
    ensures x.i0 == i && x.memory == st.memory[..at] + Repeated(literal, i * |literal|) + st.memory[at + i * |literal|..]
  {
    hide Decode;
    assert st.memory[at..at + 0 * |literal|] == Repeated(literal, 0 * |literal|);
    CopiesRepeat(st.memory, at, 0, i, literal, text);
    x := State(st.memory[..at] + Repeated(literal, i * |literal|) + st.memory[at + i * |literal|..], i);
  }

  lemma {:induction false} TailPart(literal: seq<Octet>, size: nat, i: nat, n: nat, rest: string, st: State, x: State, at: nat) returns (y: State)
    requires literal != [] && n < |literal| && size == i * |literal| + n && Decode(rest) == Some(literal[..n]) && at + size <= |st.memory|
    requires x.i0 == i && x.memory == st.memory[..at] + Repeated(literal, i * |literal|) + st.memory[at + i * |literal|..]
    ensures Exec(CopyAt(|literal|, rest, n), x, at) == Some(y)
    ensures y.memory == st.memory[..at] + Repeated(literal, size) + st.memory[at + size..]
  {
    hide Decode;
    var done := i * |literal|;
    var m := x.memory;
    assert (literal[..n] + [0])[..n] == literal[..n];
    y := State(m[..at + done] + literal[..n] + m[at + done + n..], i);
    RepeatedPart(literal, size, i, n);
  }
}
