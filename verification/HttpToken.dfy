/** The fixed buffer in which the header parser collects one token. */
module HttpToken {
  const MAX_KEY_LEN: nat := 256
  const MAX_METHOD_LEN: nat := 8
  const NUL: char := '\0'

  /** The buffer's bytes, and where the next one goes. */
  datatype Token = Token(buf: seq<char>, pos: nat)

  ghost predicate Sized(t: Token) {
    |t.buf| == MAX_KEY_LEN && t.pos <= MAX_KEY_LEN
  }

  function Put(t: Token, c: char): (r: Token)
    requires t.pos < |t.buf|
    ensures |r.buf| == |t.buf|
  {
    Token(t.buf[t.pos := c], t.pos + 1)
  }

  /** The first position from `i` on that is not a blank. */
  function Blanks(b: seq<char>, i: nat): (k: nat)
    requires i <= |b|
    ensures i <= k <= |b| && (forall j :: i <= j < k ==> b[j] == ' ') && (k < |b| ==> b[k] != ' ')
    decreases |b| - i
  {
    if i < |b| && b[i] == ' ' then Blanks(b, i + 1) else i
  }

  /** The first position from `i` on that holds a zero. */
  function Zero(b: seq<char>, i: nat): (k: nat)
    requires i <= |b|
    ensures i <= k <= |b| && (forall j :: i <= j < k ==> b[j] != NUL) && (k < |b| ==> b[k] == NUL)
    decreases |b| - i
  {
    if i < |b| && b[i] != NUL then Zero(b, i + 1) else i
  }

  function Zeros(n: nat): (z: seq<char>)
    ensures |z| == n && forall i :: 0 <= i < n ==> z[i] == NUL
  {
    seq(n, i => NUL)
  }

  function Blanked(b: seq<char>, i: nat, j: nat): (r: seq<char>)
    requires i <= j <= |b|
    ensures |r| == |b|
    ensures forall k :: 0 <= k < |b| ==> r[k] == if i <= k < j then NUL else b[k]
  {
    b[..i] + Zeros(j - i) + b[j..]
  }

  /** `MoveBufTo` for a string: what is behind leading blanks, up to a zero. The blanks stay in the buffer. */
  function Taken(t: Token): string {
    var i := Blanks(t.buf, 0);
    t.buf[i..Zero(t.buf, i)]
  }

  function Emptied(t: Token): (r: Token)
    ensures |r.buf| == |t.buf| && r.pos == 0
  {
    var i := Blanks(t.buf, 0);
    Token(Blanked(t.buf, i, Zero(t.buf, i)), 0)
  }

  /** `MoveBufTo` for a number: everything up to a zero is removed. */
  function Wiped(t: Token): (r: Token)
    ensures |r.buf| == |t.buf| && r.pos == 0
  {
    Token(Blanked(t.buf, 0, Zero(t.buf, 0)), 0)
  }

  // ---------- the method at the start of a request ----------

  /** When the buffer is full, only its last bytes are kept. */
  function Shifted(t: Token): (r: Token)
    requires Sized(t)
    ensures Sized(r) && r.pos < MAX_KEY_LEN
  {
    if t.pos >= MAX_KEY_LEN
    then Token(t.buf[t.pos - MAX_METHOD_LEN..t.pos] + t.buf[MAX_METHOD_LEN..], MAX_METHOD_LEN)
    else t
  }

  predicate EndsWith(t: Token, s: string) {
    |s| <= t.pos <= |t.buf| && t.buf[t.pos - |s|..t.pos] == s
  }

  predicate AtMethod(t: Token) {
    EndsWith(t, "GET ") || EndsWith(t, "POST ")
  }

  /** `isMethodFound`: one more byte; if it completes a method, the next token starts. */
  function Sought(t: Token, c: char): (r: (bool, Token))
    requires Sized(t) && t.pos < MAX_KEY_LEN
    ensures Sized(r.1) && r.1.pos < MAX_KEY_LEN
  {
    var u := Shifted(Put(t, c));
    if AtMethod(u) then (true, u.(pos := 0)) else (false, u)
  }

  // ---------- clean buffers ----------

  /** A buffer that starts with `w` and is zero behind it. */
  ghost predicate Shows(t: Token, w: string) {
    && Sized(t) && |w| < MAX_KEY_LEN && t.buf[..|w|] == w
    && forall i :: |w| <= i < MAX_KEY_LEN ==> t.buf[i] == NUL
  }

  /** The same, when `w` is what was collected. */
  ghost predicate Holds(t: Token, w: string) {
    Shows(t, w) && t.pos == |w|
  }

  /** Nothing is collected, but an earlier token has left blanks in front. */
  ghost predicate Cleared(t: Token, blanks: nat) {
    && Sized(t) && t.pos == 0 && blanks < MAX_KEY_LEN
    && (forall i :: 0 <= i < blanks ==> t.buf[i] == ' ')
    && forall i :: blanks <= i < MAX_KEY_LEN ==> t.buf[i] == NUL
  }

  ghost predicate Ready(t: Token) {
    Cleared(t, 0)
  }

  ghost predicate Plain(w: string) {
    NUL !in w && |w| < MAX_KEY_LEN
  }

  function PutAll(t: Token, w: string): (r: Token)
    requires t.pos + |w| <= |t.buf|
    ensures |r.buf| == |t.buf| && r.pos == t.pos + |w|
  {
    Token(t.buf[..t.pos] + w + t.buf[t.pos + |w|..], t.pos + |w|)
  }

  lemma PutAllStep(t: Token, c: char, w: string)
    requires t.pos + 1 + |w| <= |t.buf|
    ensures PutAll(Put(t, c), w) == PutAll(t, [c] + w)
  {
  }

  lemma PutAllNone(t: Token)
    requires t.pos <= |t.buf|
    ensures PutAll(t, []) == t
  {
  }

  lemma ReadyHolds(t: Token, w: string)
    requires Ready(t) && |w| < MAX_KEY_LEN
    ensures Holds(PutAll(t, w), w)
  {
  }

  function Spaces(n: int): (s: string)
    ensures |s| == (if n > 0 then n else 0) && forall i :: 0 <= i < |s| ==> s[i] == ' '
  {
    seq(if n > 0 then n else 0, i => ' ')
  }

  /** A token shorter than the blanks it overwrites shows with the others behind it. */
  lemma ClearedShows(t: Token, blanks: nat, w: string)
    requires Cleared(t, blanks) && |w| < MAX_KEY_LEN
    ensures Shows(PutAll(t, w), w + Spaces(blanks - |w|))
  {
  }

  lemma {:induction false} SameBlanks(b: seq<char>, w: string, i: nat)
    requires i <= |w| < |b| && b[..|w|] == w && b[|w|] != ' '
    ensures Blanks(b, i) == Blanks(w, i)
    decreases |w| - i
  {
    if i < |w| {
      assert b[i] == w[i];
      if w[i] == ' ' { SameBlanks(b, w, i + 1); }
    }
  }

  /** Leading blanks are dropped, and stay behind. */
  lemma BlanksTaken(t: Token, w: string)
    requires Shows(t, w) && NUL !in w
    ensures Taken(t) == w[Blanks(w, 0)..] && Cleared(Emptied(t), Blanks(w, 0))
  {
    var i := Blanks(w, 0);
    assert t.buf[|w|] == NUL;
    SameBlanks(t.buf, w, 0);
    ZeroAt(t, w, i);
    assert t.buf[i..|w|] == w[i..];
    forall j | 0 <= j < i
      ensures t.buf[j] == ' '
    {
      assert t.buf[j] == w[j];
    }
  }

  /** A token without leading blanks is taken as it is. */
  lemma HoldsTaken(t: Token, w: string)
    requires Shows(t, w) && NUL !in w && w != [] && w[0] != ' '
    ensures Taken(t) == w && Ready(Emptied(t)) && Ready(Wiped(t))
  {
    assert t.buf[0] == w[0];
    BlanksTaken(t, w);
    ZeroAt(t, w, 0);
  }

  lemma ZeroAt(t: Token, w: string, i: nat)
    requires Shows(t, w) && NUL !in w && i <= |w|
    ensures Zero(t.buf, i) == |w|
  {
    assert t.buf[|w|] == NUL;
    forall k | 0 <= k < |w|
      ensures t.buf[k] != NUL
    {
      assert t.buf[k] == t.buf[..|w|][k] == w[k] && w[k] in w;
    }
  }
}
