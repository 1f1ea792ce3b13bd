/** The keyboard edge detector of src/input.cc: the current state of every GLFW key and a
    snapshot of it taken at the last Update. */
module Inputs {
  /** GLFW key actions. */
  const Release := 0
  const Press := 1
  const Repeat := 2

  /** GLFW_KEY_LAST: keys are 0 .. KeyLast. */
  const KeyLast := 348

  class Input {
    const keyboard: array<int>
    const prevKeyboard: array<int>

    /** One slot per key in each array, and two distinct arrays. */
    ghost predicate Valid()
      reads this
    {
      keyboard.Length == KeyLast + 1 && prevKeyboard.Length == KeyLast + 1 &&
      keyboard != prevKeyboard
    }

    /** Input(): every key released, now and in the snapshot. */
    constructor ()
      ensures Valid() && fresh(keyboard) && fresh(prevKeyboard)
      ensures forall k :: 0 <= k <= KeyLast ==> keyboard[k] == Release && prevKeyboard[k] == Release
      ensures forall k :: 0 <= k <= KeyLast ==> !IsKeyDown(k) && !IsKeyPressed(k)
    {
      prevKeyboard := new int[KeyLast + 1](_ => Release);
      keyboard := new int[KeyLast + 1](_ => Release);
    }

    /** Input::Update: the snapshot becomes a copy of the current state. */
    method Update()
      requires Valid()
      modifies prevKeyboard
      ensures prevKeyboard[..] == keyboard[..] && keyboard[..] == old(keyboard[..])
      ensures forall k :: 0 <= k <= KeyLast ==> IsKeyDown(k) == old(IsKeyDown(k))
      ensures forall k :: 0 <= k <= KeyLast ==> !IsKeyPressed(k)
    {
      var i := 0;
      while i < prevKeyboard.Length
        invariant 0 <= i <= prevKeyboard.Length
        invariant forall k :: 0 <= k < i ==> prevKeyboard[k] == keyboard[k]
      {
        prevKeyboard[i] := keyboard[i];
        i := i + 1;
      }
    }

    /** Input::OnKeyChanged: a release stores Release, any other action (press or repeat)
        stores Press; scancode and mods are ignored. */
    method OnKeyChanged(key: int, scancode: int, action: int, mods: int)
      requires Valid() && 0 <= key <= KeyLast
      modifies keyboard
      ensures keyboard[..] == old(keyboard[..])[key := if action == Release then Release else Press]
      ensures IsKeyDown(key) <==> action != Release
      ensures forall k :: 0 <= k <= KeyLast && k != key ==> IsKeyDown(k) == old(IsKeyDown(k))
      ensures prevKeyboard[..] == old(prevKeyboard[..])
    {
      keyboard[key] := if action == Release then Release else Press;
    }

    /** Input::IsKeyDown. */
    predicate IsKeyDown(key: int)
      requires Valid() && 0 <= key <= KeyLast
      reads this, keyboard
    {
      keyboard[key] == Press
    }

    /** Input::IsKeyPressed: down now and released in the snapshot. */
    predicate IsKeyPressed(key: int)
      requires Valid() && 0 <= key <= KeyLast
      reads this, keyboard, prevKeyboard
      ensures IsKeyPressed(key) ==> IsKeyDown(key)
    {
      keyboard[key] == Press && prevKeyboard[key] == Release
    }
  }
}
