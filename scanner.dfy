/**
 * The character scanner: the globals `input` (a cursor into a NUL-terminated
 * string) and `nextToken`, `scanToken()` which classifies and skips one
 * token, and the loop in `main` that scans until the terminator.
 */
module Scan {
  import opened Chars

  /** One of the single-character tokens `+ - * / ( )` */
  predicate IsOperator(c: char) {
    c == '+' || c == '-' || c == '*' || c == '/' || c == '(' || c == ')'
  }

  /** A C string: the text followed by its NUL terminator */
  predicate Terminated(s: seq<char>) {
    |s| > 0 && s[|s| - 1] == '\0'
  }

  /**
   * Where `scanToken()` leaves the cursor when it starts at `p`: past a
   * maximal run of digits, past one operator, or past the first character
   * and the maximal run of letters and digits after it. On the final
   * terminator it stays put.
   */
  function NextPos(s: seq<char>, p: nat): (q: nat)
    requires Terminated(s) && p < |s|
    ensures p <= q < |s|
    ensures s[p] != '\0' ==> p < q
    ensures IsDigit(s[p]) ==> (forall k :: p <= k < q ==> IsDigit(s[k])) && !IsDigit(s[q])
    ensures IsOperator(s[p]) ==> q == p + 1
    ensures !IsDigit(s[p]) && !IsOperator(s[p]) && p < |s| - 1 ==>
              p < q && (forall k :: p < k < q ==> IsAlnum(s[k])) && !IsAlnum(s[q])
    ensures p == |s| - 1 ==> q == p
  {
    if IsDigit(s[p]) then DigitRunEnd(s, p)
    else if IsOperator(s[p]) then p + 1
    else if p == |s| - 1 then p
    else AlnumRunEnd(s, p + 1)
  }

  /**
   * The characters `main` writes: the leading character of each token from
   * cursor `p` on, up to and including the first token that is the NUL.
   */
  function Tokens(s: seq<char>, p: nat): (t: seq<char>)
    requires Terminated(s) && p < |s|
    ensures 1 <= |t| <= |s| - p
    ensures t[0] == s[p]
    ensures t[|t| - 1] == '\0'
    ensures forall i :: 0 <= i < |t| - 1 ==> t[i] != '\0'
    decreases |s| - p
  {
    if s[p] == '\0' then [s[p]] else [s[p]] + Tokens(s, NextPos(s, p))
  }

  /** The scanner's state: the string, the cursor into it, and the current token */
  class Scanner {
    const buffer: seq<char>
    var pos: nat
    var nextToken: char

    ghost predicate Valid()
      reads this
    {
      Terminated(buffer) && pos < |buffer|
    }

    /** `input = argv[1]`; `nextToken` starts zero-initialised, as a global */
    constructor (s: seq<char>)
      requires Terminated(s)
      ensures Valid()
      ensures buffer == s && pos == 0 && nextToken == '\0'
    {
      buffer := s;
      pos := 0;
      nextToken := '\0';
    }

    /** `scanToken()`: records the character under the cursor and skips its token */
    method ScanToken()
      requires Valid()
      modifies this
      ensures Valid()
      ensures nextToken == buffer[old(pos)]
      ensures pos == NextPos(buffer, old(pos))
    {
      var start := pos;
      nextToken := buffer[pos];
      if IsDigit(nextToken) {
        while IsDigit(buffer[pos])
          invariant start <= pos < |buffer| && nextToken == buffer[start]
          invariant DigitRunEnd(buffer, pos) == DigitRunEnd(buffer, start)
          decreases |buffer| - pos
        {
          pos := pos + 1;
        }
        return;
      }
      if IsOperator(nextToken) {
        pos := pos + 1;
        return;
      }
      if pos == |buffer| - 1 {
        // the do-while below would step past the terminator
        return;
      }
      pos := pos + 1;
      while IsAlnum(buffer[pos])
        invariant start < pos < |buffer| && nextToken == buffer[start]
        invariant AlnumRunEnd(buffer, pos) == AlnumRunEnd(buffer, start + 1)
        decreases |buffer| - pos
      {
        pos := pos + 1;
      }
    }
  }

  /**
   * The loop in `main`: scan, write `nextToken`, until it is the terminator.
   * Returns the characters written, one per call of `scanToken()`; there are
   * at most as many calls as the string has characters, terminator included.
   */
  method ScanAll(s: seq<char>) returns (written: seq<char>)
    requires Terminated(s)
    ensures written == Tokens(s, 0)
    ensures |written| <= |s| && written[|written| - 1] == '\0'
  {
    var scanner := new Scanner(s);
    written := [];
    var done := false;
    while !done
      invariant scanner.Valid() && scanner.buffer == s
      invariant !done ==> written + Tokens(s, scanner.pos) == Tokens(s, 0)
      invariant done ==> written == Tokens(s, 0)
      decreases !done, |s| - scanner.pos
    {
      ghost var p := scanner.pos;
      scanner.ScanToken();
      written := written + [scanner.nextToken];
      done := scanner.nextToken == '\0';
      if !done {
        assert Tokens(s, p) == [s[p]] + Tokens(s, scanner.pos);
      }
    }
  }
}
