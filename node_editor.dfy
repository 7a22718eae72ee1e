/**
 * The inline rename of the current revision: an editor opened over a node's
 * caption starts with the node's name; on blur the typed text is trimmed, written
 * to the node's name only when something is left, and written to the caption in
 * every case; Enter ends the edit the same way.
 */
module NodeEditor {
  import opened Hierarchy

  // ---------------------------------------------------------------------------
  // String.prototype.trim

  /**
   * The code points `trim` strips: ECMAScript's WhiteSpace (tab, vertical
   * tab, form feed, the byte order mark and every space separator) and its
   * LineTerminator (line feed, carriage return, line and paragraph separator).
   */
  predicate IsBlank(c: char)
  {
    || c == '\t' || c == '\U{000B}' || c == '\U{000C}' || c == ' ' || c == '\U{00A0}' || c == '\U{FEFF}'
    || c == '\U{1680}' || ('\U{2000}' <= c <= '\U{200A}') || c == '\U{202F}' || c == '\U{205F}' || c == '\U{3000}'
    || c == '\n' || c == '\r' || c == '\U{2028}' || c == '\U{2029}'
  }

  /** Every character of `s` is blank (vacuously so for the empty string). */
  predicate AllBlank(s: string)
  {
    forall k :: 0 <= k < |s| ==> IsBlank(s[k])
  }

  /** `s` neither starts nor ends with a blank. */
  predicate Trimmed(s: string)
  {
    s == [] || (!IsBlank(s[0]) && !IsBlank(s[|s| - 1]))
  }

  /** The first position at or after `lo` that holds no blank (`|s|` if there is none). */
  function SkipBlanks(s: string, lo: nat): (i: nat)
    requires lo <= |s|
    ensures lo <= i <= |s|
    ensures forall k :: lo <= k < i ==> IsBlank(s[k])
    ensures i < |s| ==> !IsBlank(s[i])
    decreases |s| - lo
  {
    if lo == |s| || !IsBlank(s[lo]) then lo else SkipBlanks(s, lo + 1)
  }

  /** The end of the last stretch before `hi` that holds no blank (0 if there is none): the blanks at `j..hi` are dropped. */
  function BackBlanks(s: string, hi: nat): (j: nat)
    requires hi <= |s|
    ensures j <= hi
    ensures forall k :: j <= k < hi ==> IsBlank(s[k])
    ensures j > 0 ==> !IsBlank(s[j - 1])
  {
    if hi == 0 || !IsBlank(s[hi - 1]) then hi else BackBlanks(s, hi - 1)
  }

  /** Whatever position meets its contract is the one `SkipBlanks` finds. */
  lemma SkipBlanksUnique(s: string, lo: nat, i: nat)
    requires lo <= i <= |s|
    requires forall k :: lo <= k < i ==> IsBlank(s[k])
    requires i < |s| ==> !IsBlank(s[i])
    ensures SkipBlanks(s, lo) == i
  {
  }

  /** Whatever position meets its contract is the one `BackBlanks` finds. */
  lemma BackBlanksUnique(s: string, hi: nat, j: nat)
    requires j <= hi <= |s|
    requires forall k :: j <= k < hi ==> IsBlank(s[k])
    requires j > 0 ==> !IsBlank(s[j - 1])
    ensures BackBlanks(s, hi) == j
  {
  }

  /**
   * `s.trim()`: the part of `s` between its leading and its trailing blanks.
   * It is trimmed, and it is empty exactly when `s` is all blank.
   */
  function Trim(s: string): (r: string)
    ensures Trimmed(r)
    ensures r == [] <==> AllBlank(s)
  {
    var lo := SkipBlanks(s, 0);
    if lo == |s| then [] else s[lo..BackBlanks(s, |s|)]
  }

  /** Trimming drops blanks only: the result sits in `s` with nothing but blanks around it. */
  lemma TrimIsInfix(s: string)
    ensures exists lo, hi {:trigger s[lo..hi]} :: 0 <= lo <= hi <= |s| && s[lo..hi] == Trim(s) && AllBlank(s[..lo]) && AllBlank(s[hi..])
  {
    var lo := SkipBlanks(s, 0);
    if lo == |s| {
      assert s[lo..lo] == Trim(s) && AllBlank(s[..lo]);
    } else {
      var hi := BackBlanks(s, |s|);
      assert s[lo..hi] == Trim(s);
    }
  }

  /** A string that is already trimmed is left as it is. */
  lemma TrimTrimmed(s: string)
    requires Trimmed(s)
    ensures Trim(s) == s
  {
    if s != [] {
      assert s[0..|s|] == s;
    }
  }

  /** Trimming twice is trimming once. */
  lemma TrimIdempotent(s: string)
    ensures Trim(Trim(s)) == Trim(s)
  {
    TrimTrimmed(Trim(s));
  }

  /** Blanks typed around a trimmed text are all dropped again. */
  lemma TrimPadded(pre: string, s: string, post: string)
    requires AllBlank(pre) && AllBlank(post) && Trimmed(s)
    ensures Trim(pre + s + post) == s
  {
    var x := pre + s + post;
    assert forall k :: 0 <= k < |pre| ==> x[k] == pre[k];
    assert forall k :: |pre| + |s| <= k < |x| ==> x[k] == post[k - |pre| - |s|];
    if s == [] {
      SkipBlanksUnique(x, 0, |x|);
    } else {
      assert x[|pre|] == s[0] && x[|pre| + |s| - 1] == s[|s| - 1];
      SkipBlanksUnique(x, 0, |pre|);
      BackBlanksUnique(x, |x|, |pre| + |s|);
      assert x[|pre|..|pre| + |s|] == s;
    }
  }

  // ---------------------------------------------------------------------------
  // The commit rule

  /** What a commit leaves: the node's stored name and the caption's text. */
  datatype Commit = Commit(name: string, caption: string)

  /**
   * The blur commit: from the node's name before the edit and the text of the
   * editor, the name becomes the trimmed text when that is not empty and is
   * kept otherwise, and the caption shows the trimmed text in both cases.
   */
  function CommitRule(name: string, input: string): (c: Commit)
    ensures c.caption == Trim(input) && Trimmed(c.caption)
    ensures !AllBlank(input) ==> c.name == c.caption
    ensures AllBlank(input) ==> c.name == name && c.caption == []
  {
    var newValue := Trim(input);
    Commit(if newValue != [] then newValue else name, newValue)
  }

  /** The caption and the stored name disagree exactly when a blank text was committed over a non-empty name. */
  lemma CommitDiverges(name: string, input: string)
    ensures CommitRule(name, input).name != CommitRule(name, input).caption <==> AllBlank(input) && name != []
  {
  }

  /** A commit never leaves a blank stored name behind unless the name was blank before. */
  lemma CommitKeepsNameNonBlank(name: string, input: string)
    requires !AllBlank(name)
    ensures !AllBlank(CommitRule(name, input).name)
  {
  }

  /** Committing what the caption shows once more changes nothing. */
  lemma CommitIdempotent(name: string, input: string)
    ensures CommitRule(CommitRule(name, input).name, CommitRule(name, input).caption) == CommitRule(name, input)
  {
    TrimIdempotent(input);
  }

  /**
   * Opening the editor and leaving it without typing commits the name itself:
   * the stored name changes exactly when it is not blank and has blanks at an end.
   */
  lemma UneditedCommit(name: string)
    ensures CommitRule(name, name).name != name <==> !AllBlank(name) && !Trimmed(name)
  {
    if Trimmed(name) {
      TrimTrimmed(name);
    }
  }

  /** Blanks typed around a name are not stored. */
  lemma CommitIgnoresPadding(name: string, pre: string, text: string, post: string)
    requires AllBlank(pre) && AllBlank(post) && Trimmed(text) && text != []
    ensures CommitRule(name, pre + text + post) == Commit(text, text)
  {
    TrimPadded(pre, text, post);
  }

  // ---------------------------------------------------------------------------
  // The editor

  /** The text element that shows a node's name. */
  class Caption {
    var text: string

    constructor (text: string)
      ensures this.text == text
    {
      this.text := text;
    }
  }

  /**
   * `editNodeText(d, textElement)`: a text area laid over the caption of `node`,
   * holding the text being typed; `attached` while it is in the document.
   */
  class InlineEditor {
    const node: HNode
    const caption: Caption
    var value: string
    var attached: bool

    /** Opening the editor: its text starts as the node's current name. */
    constructor Open(node: HNode, caption: Caption)
      ensures this.node == node && this.caption == caption
      ensures value == node.data.name && attached
    {
      this.node := node;
      this.caption := caption;
      value := node.data.name;
      attached := true;
    }

    /** The user's typing replaces the text of the editor. */
    method Edit(text: string)
      requires attached
      modifies this`value
      ensures value == text && attached
    {
      value := text;
    }

    /**
     * The blur handler: the commit rule applied to the node's name and the
     * editor's text; the editor leaves the document. Nothing else of the node,
     * in particular no child list, is touched.
     */
    method Blur()
      requires attached
      modifies node.data`name, caption`text, this`attached
      ensures Commit(node.data.name, caption.text) == CommitRule(old(node.data.name), value)
      ensures !attached && node.data.children == old(node.data.children)
    {
      var newValue := Trim(value);
      if newValue != [] {
        node.data.name := newValue;
      }
      attached := false;
      caption.text := newValue;
    }

    /** A key press in the editor: Enter blurs it, which commits; any other key leaves everything as it was. */
    method KeyDown(key: string)
      requires attached
      modifies node.data`name, caption`text, this`attached
      ensures key == "Enter" ==> Commit(node.data.name, caption.text) == CommitRule(old(node.data.name), value) && !attached
      ensures key != "Enter" ==> node.data.name == old(node.data.name) && caption.text == old(caption.text) && attached
      ensures node.data.children == old(node.data.children)
    {
      if key == "Enter" {
        Blur();
      }
    }
  }
}
