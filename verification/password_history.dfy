/**
 The generator window's password history: a list of at most five distinct
 passwords, oldest first, updated by each generation and by the delete
 buttons, and shown newest first.
 */
module PasswordHistory {
  import opened Seqs
  import opened PasswordGen

  const Capacity := 5

  /** The history the window keeps: no password twice, at most five. */
  predicate Valid(h: seq<string>)
  {
    NoDup(h) && |h| <= Capacity
  }

  /** The update after generating `pw`: append it unless it is already
      there, then drop the oldest entry once (`pop(0)`) if the list has grown
      past five. */
  function Record(h: seq<string>, pw: string): (r: seq<string>)
    ensures pw !in h && |h| < Capacity ==> r == h + [pw]
    ensures pw !in h && |h| >= Capacity ==> r == h[1..] + [pw]
    ensures pw in h && |h| <= Capacity ==> r == h
    ensures forall x :: x in r ==> x in h || x == pw
  {
    var appended := if pw in h then h else h + [pw];
    if |appended| > Capacity then appended[1..] else appended
  }

  /** Recording keeps the history valid, keeps the new password, and puts
      it last when it was new. */
  lemma RecordKeepsValid(h: seq<string>, pw: string)
    requires Valid(h)
    ensures Valid(Record(h, pw))
    ensures pw in Record(h, pw)
    ensures pw !in h ==> Record(h, pw)[|Record(h, pw)| - 1] == pw
  {
    var r := Record(h, pw);
    if pw !in h {
      var t := h + [pw];
      assert NoDup(t);
      if |h| >= Capacity {
        assert r == t[1..];
      }
    }
  }

  /** Recording a password already present changes nothing. */
  lemma RecordIdempotent(h: seq<string>, pw: string)
    requires Valid(h)
    ensures Record(Record(h, pw), pw) == Record(h, pw)
  {
    RecordKeepsValid(h, pw);
  }

  /** The first position of `p` in `h`. */
  function Position(h: seq<string>, p: string): (i: nat)
    requires p in h
    ensures i < |h| && h[i] == p && p !in h[..i]
  {
    if h[0] == p then 0
    else
      var i := 1 + Position(h[1..], p);
      assert h[..i] == [h[0]] + h[1..][..i - 1];
      i
  }

  /** A delete button: `history.remove(p)` when `p` is present, which drops
      its first occurrence; otherwise nothing. */
  function Delete(h: seq<string>, p: string): (r: seq<string>)
    ensures p !in h ==> r == h
    ensures p in h ==> |r| == |h| - 1 && multiset(r) + multiset{p} == multiset(h)
    ensures IsSubsequence(r, h)
  {
    if p in h then
      var i := Position(h, p);
      DropOneIsSubsequence(h, i);
      assert h == h[..i] + [p] + h[i + 1..];
      h[..i] + h[i + 1..]
    else
      SubsequenceReflexive(h);
      h
  }

  /** Deleting keeps the history valid, and the deleted password is gone. */
  lemma DeleteKeepsValid(h: seq<string>, p: string)
    requires Valid(h)
    ensures Valid(Delete(h, p))
    ensures p !in Delete(h, p)
  {
    if p in h {
      DropOneNoDup(h, Position(h, p));
    }
  }

  /** `reversed(history[-5:])`: the last five entries, newest first. */
  function Displayed(h: seq<string>): (r: seq<string>)
    ensures |r| == (if |h| < Capacity then |h| else Capacity)
    ensures forall k :: 0 <= k < |r| ==> r[k] == h[|h| - 1 - k]
  {
    var tail := if |h| <= Capacity then h else h[|h| - Capacity..];
    seq(|tail|, k requires 0 <= k < |tail| => tail[|tail| - 1 - k])
  }

  /** A newly generated password is shown at the top of the history. */
  lemma NewestShownFirst(h: seq<string>, pw: string)
    requires Valid(h) && pw !in h
    ensures Displayed(Record(h, pw))[0] == pw
  {
    RecordKeepsValid(h, pw);
  }

  /** What the window holds after pressing Generate: the text in the
      password field and the history. */
  datatype Generated = Generated(shown: string, history: seq<string>)

  /** `_generate`: with no class selected, the field shows a notice and the
      history stays; otherwise a password of the slider's length is drawn,
      shown and recorded. */
  function Generate(h: seq<string>, uppercase: bool, lowercase: bool, numbers: bool, special: bool,
                    excludeAmbiguous: bool, length: int, pick: nat -> nat): (g: Generated)
    ensures !uppercase && !lowercase && !numbers && !special ==> g == Generated(NoCharsetText, h)
    ensures uppercase || lowercase || numbers || special ==>
              var charset := BuildCharset(uppercase, lowercase, numbers, special, excludeAmbiguous);
              && g.shown == GeneratePassword(length, charset, pick)
              && g.history == Record(h, g.shown)
  {
    var charset := BuildCharset(uppercase, lowercase, numbers, special, excludeAmbiguous);
    CharsetEmptyIffNoClass(uppercase, lowercase, numbers, special, excludeAmbiguous);
    if charset == [] then Generated(NoCharsetText, h)
    else
      var pw := GeneratePassword(length, charset, pick);
      Generated(pw, Record(h, pw))
  }

  /** Generating keeps the history valid, and a generated password can be
      copied (with the intended guard) whenever the slider length is
      positive. */
  lemma GenerateKeepsValid(h: seq<string>, uppercase: bool, lowercase: bool, numbers: bool,
                           special: bool, excludeAmbiguous: bool, length: int, pick: nat -> nat)
    requires Valid(h)
    ensures Valid(Generate(h, uppercase, lowercase, numbers, special, excludeAmbiguous, length, pick).history)
    ensures (uppercase || lowercase || numbers || special) && length > 0 ==>
              CanCopy(Generate(h, uppercase, lowercase, numbers, special, excludeAmbiguous, length, pick).shown)
  {
    var g := Generate(h, uppercase, lowercase, numbers, special, excludeAmbiguous, length, pick);
    if uppercase || lowercase || numbers || special {
      RecordKeepsValid(h, g.shown);
      if length > 0 {
        CopyGuardAcceptsGenerated(uppercase, lowercase, numbers, special, excludeAmbiguous, length, pick);
      }
    }
  }
}
