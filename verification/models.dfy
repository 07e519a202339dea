/** Records shared by several parts of the plugin (`models/base.py` is not
    part of this model; only the fields the modelled logic reads appear). */
module Models {

  /** An activity: a land-use intervention identified by its uuid. */
  datatype Activity = Activity(uuid: string, name: string)
}
