/** The option registry: the `options` array of the widget as `addOption`
    appends to it and the delete buttons splice it. Labels are compared as
    exact strings, as `Array.prototype.includes` compares them. */
module Registry {
  import opened Text

  /** The registry's invariant: every label is non-empty and trimmed, and no
      label occurs twice. */
  predicate Valid(options: seq<string>)
  {
    && (forall i :: 0 <= i < |options| ==> options[i] != [] && IsTrimmed(options[i]))
    && (forall i, j :: 0 <= i < j < |options| ==> options[i] != options[j])
  }

  /** `addOption` with the text field holding `input`: the trimmed text is
      appended when it is non-empty and not yet present; otherwise the list
      is left as it was. */
  function Add(options: seq<string>, input: string): (r: seq<string>)
    ensures |options| <= |r| <= |options| + 1
    ensures r[..|options|] == options
    ensures |r| == |options| + 1 <==> Trim(input) != [] && Trim(input) !in options
    ensures |r| == |options| + 1 ==> r[|options|] == Trim(input)
    ensures forall x :: x in r <==> x in options || (x == Trim(input) && x != [])
    ensures Valid(options) ==> Valid(r)
  {
    var value := Trim(input);
    if value != [] && value !in options then
      AppendFresh(options, value);
      options + [value]
    else options
  }

  /** Appending a non-empty trimmed label that is not yet present adds just
      that label and keeps the list valid. */
  lemma AppendFresh(options: seq<string>, value: string)
    requires value != [] && IsTrimmed(value) && value !in options
    ensures (options + [value])[..|options|] == options
    ensures forall x :: x in options + [value] <==> x in options || x == value
    ensures Valid(options) ==> Valid(options + [value])
  {
    var r := options + [value];
    assert r[..|options|] == options;
    if Valid(options) {
      forall i, j | 0 <= i < j < |r|
        ensures r[i] != r[j]
      {
        if j == |options| {
          assert r[i] == options[i];
        }
      }
    }
  }

  /** The delete handler for a button numbered `index` of the current list:
      exactly that label goes, the others keep their relative order. */
  function RemoveAt(options: seq<string>, index: int): (r: seq<string>)
    requires 0 <= index < |options|
    ensures |r| == |options| - 1
    ensures forall j :: 0 <= j < index ==> r[j] == options[j]
    ensures forall j :: index <= j < |r| ==> r[j] == options[j + 1]
    ensures multiset(r) + multiset{options[index]} == multiset(options)
    ensures Valid(options) ==> Valid(r) && options[index] !in r
  {
    assert options == options[..index] + [options[index]] + options[index + 1..];
    options[..index] + options[index + 1..]
  }

  /** `options.splice(index, 1)` for any integer `index`, with JavaScript's
      rules: a negative index counts from the end (clamped at 0), an index
      at or past the end removes nothing. */
  function Splice(options: seq<string>, index: int): (r: seq<string>)
    ensures 0 <= index < |options| ==> r == RemoveAt(options, index)
    ensures index >= |options| || |options| == 0 ==> r == options
    ensures -|options| <= index < 0 ==> r == RemoveAt(options, |options| + index)
    ensures index < -|options| && |options| > 0 ==> r == RemoveAt(options, 0)
    ensures Valid(options) ==> Valid(r)
  {
    var start := if index < 0 then (if |options| + index < 0 then 0 else |options| + index)
                 else (if index < |options| then index else |options|);
    if start < |options| then RemoveAt(options, start) else options
  }

  /** Deleting the label that was just accepted restores the list: `Add` and
      `RemoveAt` of the last position are inverse. */
  lemma AddThenRemoveLast(options: seq<string>, input: string)
    requires Trim(input) != [] && Trim(input) !in options
    ensures RemoveAt(Add(options, input), |options|) == options
  {
    var r := Add(options, input);
    assert RemoveAt(r, |options|) == r[..|options|];
  }

  /** Adding is idempotent: typing the same text a second time never
      changes the list again. */
  lemma AddTwice(options: seq<string>, input: string)
    ensures Add(Add(options, input), input) == Add(options, input)
  {
    var once := Add(options, input);
    if Trim(input) != [] {
      assert Trim(input) in once;
    }
  }

  /** Deleting a label and typing it again moves it to the end of the list. */
  lemma RemoveThenAdd(options: seq<string>, index: int)
    requires Valid(options)
    requires 0 <= index < |options|
    ensures Add(RemoveAt(options, index), options[index]) == RemoveAt(options, index) + [options[index]]
  {
    TrimIdentity(options[index]);
  }
}
