/**
 What several components share.
 */
module Common {

  datatype Option<+T> = None | Some(value: T)

  function Min(a: nat, b: nat): nat { if a < b then a else b }

  function Max(a: nat, b: nat): nat { if a < b then b else a }

  // Subtracting one stops at zero.
  function Less(n: nat): nat { if n == 0 then 0 else n - 1 }
}
