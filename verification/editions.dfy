/** The two editions of the checker: the module-based one under `js/` and the single-file
    `script.js`. They share the validation rules and differ in a few messages and in how the
    indicator code normalises its input. */
module Editions {

  datatype Edition = Modular | Legacy
}
