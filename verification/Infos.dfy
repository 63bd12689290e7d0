/** The info attributes of hwloc objects and CPU kinds. */
module Infos {
  datatype Info = Info(name: string, value: string)
}
