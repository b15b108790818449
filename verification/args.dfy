/** What a tokenized command line hands to a command: the command word,
    positional arguments and keyword arguments. Both tokenizers produce
    this shape. */
module Args {
  import opened Wrappers
  import opened Text

  /** A keyword value: the text given after `=` or in the following token,
      or the boolean true of a bare flag. */
  datatype KwValue = Str(s: string) | True

  type Kwargs = map<string, KwValue>

  function Lookup(kw: Kwargs, k: string): Option<KwValue> {
    if k in kw then Some(kw[k]) else None
  }

  /** Truthiness shared by Python and JavaScript for an optional keyword
      value: absence and the empty string are false. */
  predicate Truthy(v: Option<KwValue>) {
    v.Some? && (v.value.True? || v.value.s != "")
  }

  /** `kwargs.get("h") or kwargs.get("help")` / `kwargs.h || kwargs.help` */
  predicate WantsHelp(kw: Kwargs) {
    Truthy(Lookup(kw, "h")) || Truthy(Lookup(kw, "help"))
  }

  /** An optional alias is in effect only when it is a non-empty string. */
  predicate AliasSet(alias: Option<string>) {
    alias.Some? && alias.value != ""
  }

  /** A token that starts with `-` names a keyword, in both tokenizers. */
  predicate IsOption(item: string) { "-" <= item }

  /** The text before the first `=`, or all of `t` when it has none. */
  function KeyPart(t: string): string {
    if '=' in t then SplitOnce(t, '=').0 else t
  }

  /** The key an option token names: `--k=v` and `-k=v` name the text
      before the first `=`, `--k` and `-k` the text after the dashes. */
  function OptionKey(item: string): string
    requires IsOption(item)
  {
    if "--" <= item && '=' in item then KeyPart(item[2..])
    else if "--" <= item then item[2..]
    else if '=' in item then KeyPart(item[1..])
    else item[1..]
  }

  /** A single-dash option without `=`, such as `-l`, names the text after
      its dash. */
  lemma ShortOptionKey(item: string)
    requires |item| >= 2 && item[0] == '-' && item[1] != '-'
    requires forall i :: 0 <= i < |item| ==> item[i] != '='
    ensures IsOption(item) && OptionKey(item) == item[1..]
  {
    assert item[..1] == "-";
    assert !("--" <= item) by { assert item[1] != "--"[1]; }
  }

  /** An option word without its leading dashes: two for `--`, else one. */
  function Dashless(item: string): (t: string)
    requires IsOption(item)
    ensures |item| - 2 <= |t| < |item| && t == item[|item| - |t|..]
    ensures "--" <= item <==> |t| == |item| - 2
  {
    if "--" <= item then item[2..] else item[1..]
  }

  /** The dashes of an option word hold no `=`, so the word holds one
      exactly when its dashless text does. */
  lemma EqualsInDashless(item: string)
    requires IsOption(item)
    ensures '=' in item <==> '=' in Dashless(item)
  {
    var n := |item| - |Dashless(item)|;
    assert item[..n] == "-" || item[..n] == "--";
    assert item == item[..n] + Dashless(item);
  }

  /** A word of a command line as a tokenizer reads it: whether it names a
      keyword, the key it names, and the text after its `=` when it has
      one (each tokenizer reads that text its own way). */
  datatype Token = Token(text: string, option: bool, key: string, inline: Option<string>)

  /** The texts of the words that are not options, in order. */
  function NonOptions(ts: seq<Token>): (r: seq<string>)
    ensures |r| <= |ts|
    ensures forall x :: x in r <==> exists i :: 0 <= i < |ts| && !ts[i].option && ts[i].text == x
  {
    if ts == [] then []
    else
      var rest := NonOptions(ts[1..]);
      assert forall i :: 1 <= i < |ts| ==> ts[i] == ts[1..][i - 1];
      (if ts[0].option then [] else [ts[0].text]) + rest
  }

  /** Reading two runs of words one after the other keeps each run's
      non-options in order, first run first. */
  lemma {:induction false} NonOptionsAppend(ts: seq<Token>, us: seq<Token>)
    ensures NonOptions(ts + us) == NonOptions(ts) + NonOptions(us)
  {
    if ts != [] {
      assert (ts + us)[1..] == ts[1..] + us;
      NonOptionsAppend(ts[1..], us);
    } else {
      assert ts + us == us;
    }
  }

  lemma NonOptionsStep(ts: seq<Token>, k: nat)
    requires k < |ts|
    ensures NonOptions(ts[k..]) == (if ts[k].option then [] else [ts[k].text]) + NonOptions(ts[k + 1..])
  {
    assert ts[k..][0] == ts[k] && ts[k..][1..] == ts[k + 1..];
  }

  /** The keys the option words from `i` on name. */
  function OptionKeys(ts: seq<Token>, i: nat): set<string>
    requires i <= |ts|
  {
    set j | i <= j < |ts| && ts[j].option :: ts[j].key
  }

  lemma OptionKeysStep(ts: seq<Token>, i: nat)
    requires i < |ts|
    ensures OptionKeys(ts, i) == (if ts[i].option then {ts[i].key} else {}) + OptionKeys(ts, i + 1)
  {
    if ts[i].option {
      assert ts[i].key in OptionKeys(ts, i);
    }
  }

  /** No option word after index `j` names the key word `j` names. */
  predicate LastOfKey(ts: seq<Token>, j: nat)
    requires j < |ts|
  {
    forall m :: j < m < |ts| && ts[m].option ==> ts[m].key != ts[j].key
  }

  datatype ParsedLine = ParsedLine(command: Option<string>, args: seq<string>, kwargs: Kwargs)
}

/** Python exceptions the framework raises or lets through, by class. */
module Exceptions {
  datatype Kind = ValueError | TypeError | KeyError | LookupError | IndexError | IntegrityError

  /** An exception: its class and `str(e)`. */
  datatype Exc = Exc(kind: Kind, msg: string)
}
