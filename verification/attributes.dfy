/** The shared shape of the team-attribute validators (src/team/offense.rs,
    src/team/defense.rs, src/team/coach.rs): each attribute must lie in
    [0, 100], the fields are checked in declaration order, and the first one
    out of range is reported by name together with its value. */
module Attributes {
  import opened Wrappers

  const MaxAttribute: nat := 100

  /** The message every attribute validator uses. */
  function OutOfRange(name: string, value: nat): string {
    name + " attribute is out of range [0, 100]: " + NatToString(value)
  }

  predicate AllInRange(values: seq<nat>) {
    forall i :: 0 <= i < |values| ==> values[i] <= MaxAttribute
  }

  /** `i` is the position of the first attribute above 100. */
  predicate FirstOutOfRange(values: seq<nat>, i: int) {
    0 <= i < |values| && values[i] > MaxAttribute
    && forall j :: 0 <= j < i ==> values[j] <= MaxAttribute
  }

  /** Checks the attributes in order and reports the first one above 100. */
  function CheckAttributes(names: seq<string>, values: seq<nat>): (r: Result<(), string>)
    requires |names| == |values|
    ensures r.Ok? <==> AllInRange(values)
    ensures r.Err? ==>
      exists i :: FirstOutOfRange(values, i) && r.error == OutOfRange(names[i], values[i])
    ensures forall i :: FirstOutOfRange(values, i) ==> r == Err(OutOfRange(names[i], values[i]))
    decreases |values|
  {
    if |values| == 0 then Ok(())
    else if values[0] > MaxAttribute then Err(OutOfRange(names[0], values[0]))
    else
      var rest := CheckAttributes(names[1..], values[1..]);
      assert rest.Err? ==> exists i :: FirstOutOfRange(values, i) && rest.error == OutOfRange(names[i], values[i]) by {
        if rest.Err? {
          var k :| FirstOutOfRange(values[1..], k) && rest.error == OutOfRange(names[1..][k], values[1..][k]);
          assert FirstOutOfRange(values, k + 1) by {
            forall j | 0 <= j < k + 1 ensures values[j] <= MaxAttribute {
              if j > 0 { assert values[j] == values[1..][j - 1]; }
            }
          }
        }
      }
      assert forall i :: FirstOutOfRange(values, i) ==> FirstOutOfRange(values[1..], i - 1) by {
        forall i | FirstOutOfRange(values, i) ensures FirstOutOfRange(values[1..], i - 1) {
          assert i != 0;
          forall j | 0 <= j < i - 1 ensures values[1..][j] <= MaxAttribute {
            assert values[1..][j] == values[j + 1];
          }
        }
      }
      rest
  }

  /** When the first attribute is already out of range, it is the one reported,
      whatever follows. */
  lemma FirstAttributeReported(names: seq<string>, values: seq<nat>)
    requires |names| == |values| > 0
    requires values[0] > MaxAttribute
    ensures CheckAttributes(names, values) == Err(OutOfRange(names[0], values[0]))
  {
  }
}
