/** The Some/None datatype standing in for the nullable pointers of the game
    (`Enemy *` returned by the targeting scan, `const Sprite *` of an animation). */
module Wrappers {

  datatype Option<+T> = None | Some(value: T)
}
